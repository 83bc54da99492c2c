/** The three doubly linked slab lists of a cache, relinked in place (kernel/mm/slab.cpp). */
module SlabLists {
  import opened Slab

  class Node {
    const address: nat
    const buf: nat
    var bits: set<nat>
    var available: nat
    var next: Node?
    var last: Node?

    constructor (address: nat, root: bool)
      ensures View() == NewSlab(address, root) && next == null && last == null
    {
      this.address := address;
      buf := BufferOf(address, root);
      bits := {};
      available := OBJECTS;
      next, last := null, null;
    }

    function View(): SlabView
      reads this
    {
      SlabView(address, buf, bits, available)
    }

    /** `slab::alloc`: the first clear bit; 0 stands for NULL. */
    method Alloc(size: nat) returns (obj: nat)
      requires available > 0
      modifies this`bits, this`available
      ensures FirstClear(old(bits), 0) < OBJECTS ==> View() == Take(old(View())) && obj == buf + FirstClear(old(bits), 0) * size
      ensures FirstClear(old(bits), 0) == OBJECTS ==> View() == old(View()) && obj == 0
    {
      var i := 0;
      while i < OBJECTS
        invariant 0 <= i <= OBJECTS && bits == old(bits) && available == old(available)
        invariant FirstClear(bits, 0) == FirstClear(bits, i)
      {
        if i !in bits {
          bits := bits + {i};
          available := available - 1;
          return buf + i * size;
        }
        i := i + 1;
      }
      return 0;
    }
  }

  function HeadOf(l: seq<Node>): Node? {
    if l == [] then null else l[0]
  }

  predicate Distinct(l: seq<Node>) {
    forall i, j :: 0 <= i < j < |l| ==> l[i] != l[j]
  }

  predicate Linked(l: seq<Node>, i: nat)
    requires i < |l|
    reads l
  {
    && l[i].next == (if i + 1 < |l| then l[i + 1] else null)
    && l[i].last == (if i > 0 then l[i - 1] else null)
  }

  /** The nodes are linked forwards and backwards in the order of `l`, and end with null on both sides. */
  predicate Chain(l: seq<Node>)
    reads l
  {
    Distinct(l) && forall i :: 0 <= i < |l| ==> Linked(l, i)
  }

  predicate Apart(a: seq<Node>, b: seq<Node>) {
    forall i, j :: 0 <= i < |a| && 0 <= j < |b| ==> a[i] != b[j]
  }

  /** The list without its `p`-th node. */
  function Without(l: seq<Node>, p: nat): seq<Node>
    requires p < |l|
  {
    l[..p] + l[p + 1..]
  }

  /** The first half of `move_slab`: take `src` out of its list. */
  method Unlink(srcHead: Node, src: Node, ghost s: seq<Node>, ghost p: nat) returns (head: Node?)
    requires Chain(s) && p < |s| && s[p] == src && srcHead == s[0]
    modifies s`next, s`last
    ensures Chain(Without(s, p)) && head == HeadOf(Without(s, p))
    ensures src.next == old(src.next) && src.last == old(src.last)
  {
    head := srcHead;
    assert Linked(s, p);
    assert p + 1 < |s| ==> Linked(s, p + 1);
    assert p > 0 ==> Linked(s, p - 1);
    if src.next != null {
      src.next.last := src.last;
    }
    if src.last != null {
      src.last.next := src.next;
    }
    if srcHead == src {
      head := src.next;
    }
    ghost var r := Without(s, p);
    assert forall i :: 0 <= i < |r| ==> r[i] == s[if i < p then i else i + 1];
    forall i | 0 <= i < |r|
      ensures Linked(r, i)
    {
      assert old(Linked(s, if i < p then i else i + 1));
    }
  }

  /** The last node of a non-empty list, found by walking it. */
  method WalkToEnd(head: Node, ghost d: seq<Node>) returns (node: Node)
    requires Chain(d) && d != [] && d[0] == head
    ensures node == d[|d| - 1]
  {
    node := head;
    ghost var i := 0;
    while node.next != null
      invariant 0 <= i < |d| && node == d[i]
      decreases |d| - i
    {
      assert Linked(d, i);
      node := node.next;
      i := i + 1;
    }
    assert Linked(d, i);
  }

  /** The second half of `move_slab`: put `src` at the end of the destination list. */
  method Append(destHead: Node?, src: Node, ghost d: seq<Node>) returns (dest: Node?)
    requires Chain(d) && destHead == HeadOf(d) && src !in d
    requires d != [] ==> src.next == null
    modifies d`next, src`next, src`last
    ensures Chain(d + [src]) && dest == HeadOf(d + [src])
  {
    ghost var r := d + [src];
    if destHead == null {
      src.last := null;
      src.next := null;
      assert Linked(r, 0);
      return src;
    }
    var node := WalkToEnd(destHead, d);
    node.next := src;
    src.last := node;
    dest := destHead;
    forall i | 0 <= i < |r|
      ensures Linked(r, i)
    {
      if i < |d| {
        assert old(Linked(d, i));
      }
    }
  }

  /**
   `cache::move_slab` from list `s` to list `d`, with the two heads passed by value. The
   source does not clear `src->next` when `d` is not empty, so then `src` must be the last
   node of its list.
   */
  method MoveSlab(destHead: Node?, srcHead: Node?, src: Node, ghost d: seq<Node>, ghost s: seq<Node>, ghost p: nat)
    returns (dest: Node?, head: Node?, ret: int)
    requires Chain(d) && Chain(s) && Apart(d, s)
    requires destHead == HeadOf(d) && srcHead == HeadOf(s)
    requires s != [] ==> p < |s| && s[p] == src && (d == [] || p == |s| - 1)
    modifies d`next, d`last, s`next, s`last
    ensures s == [] ==> ret == -1 && dest == destHead && head == srcHead && Chain(d)
    ensures s != [] ==> ret == 0 && Chain(d + [src]) && Chain(Without(s, p))
    ensures s != [] ==> dest == HeadOf(d + [src]) && head == HeadOf(Without(s, p))
  {
    if srcHead == null {
      return destHead, srcHead, -1;
    }
    assert Linked(s, p);
    head := Unlink(srcHead, src, s, p);
    ghost var rest := Without(s, p);
    assert src !in rest && src !in d;
    label unlinked:
    dest := Append(destHead, src, d);
    ret := 0;
    forall i | 0 <= i < |rest|
      ensures Linked(rest, i)
    {
      assert old@unlinked(Linked(rest, i)) && rest[i] !in d;
    }
  }

  function Views(l: seq<Node>): (r: seq<SlabView>)
    reads l
    ensures |r| == |l| && forall i :: 0 <= i < |l| ==> r[i] == l[i].View()
  {
    seq(|l|, i requires 0 <= i < |l| reads l => l[i].View())
  }

  class Cache {
    const size: nat
    var slabEmpty: Node?
    var slabPartial: Node?
    var slabFull: Node?
    ghost var open: seq<Node>
    ghost var full: seq<Node>

    ghost function Value(): CacheView
      reads this, open, full
    {
      CacheView(size, Views(open), Views(full))
    }

    /** The lists are disjoint chains, and the empty and partial lists together hold at most one slab. */
    ghost predicate ListsValid()
      reads this, open, full
    {
      && |open| <= 1 && Chain(open) && Chain(full) && Apart(full, open)
      && slabFull == HeadOf(full)
      && slabEmpty == (if open != [] && open[0].available == OBJECTS then open[0] else null)
      && slabPartial == (if open != [] && open[0].available != OBJECTS then open[0] else null)
    }

    ghost predicate Valid()
      reads this, open, full
    {
      ListsValid() && Slab.Valid(Value())
    }

    /** `cache::cache` with the pages of its root slab. */
    constructor (size: nat, address: nat)
      requires size > 0 && PageAddress(address)
      ensures Valid() && Value() == NewCache(size, address) && fresh(open) && full == []
    {
      this.size := size;
      var root := new Node(address, true);
      slabEmpty, slabPartial, slabFull := root, null, null;
      open, full := [root], [];
      new;
      assert Linked(open, 0);
      NewCacheTracked(size, address);
      assert Value() == NewCache(size, address);
    }

    /** The slab that serves the next request, and `alloc_slab` when there is none. */
    method ServingSlab(address: nat) returns (cur: Node)
      requires Valid() && Supplied(Value(), address)
      modifies this`slabEmpty, this`open
      ensures ListsValid() && open == [cur] && full == old(full) && Views(full) == old(Views(full))
      ensures old(open) != [] ==> cur == old(open)[0]
      ensures old(open) == [] ==> fresh(cur)
      ensures cur.View() == Server(old(Value()), address)
    {
      if slabPartial != null {
        return slabPartial;
      }
      if slabEmpty != null {
        return slabEmpty;
      }
      cur := new Node(address, false);
      slabEmpty := cur;
      open := [cur];
      assert Linked(open, 0);
      forall i | 0 <= i < |full|
        ensures Linked(full, i)
      {
        assert old(Linked(full, i));
      }
    }

    /** A slab that is used up goes to the full list. */
    method MoveToFull(cur: Node)
      requires open == [cur] && Chain(open) && Chain(full) && cur !in full && cur.available == 0
      requires slabFull == HeadOf(full) && slabEmpty == null && slabPartial == cur
      modifies this, cur`next, cur`last, full`next, full`last
      ensures ListsValid() && open == [] && full == old(full) + [cur]
    {
      var ret;
      slabFull, slabPartial, ret := MoveSlab(slabFull, slabPartial, cur, full, open, 0);
      open, full := [], full + [cur];
    }

    /** A slab that has served its first object goes to the partial list. */
    method MoveToPartial(cur: Node)
      requires open == [cur] && Chain(open) && Chain(full) && cur !in full && cur.available == OBJECTS - 1
      requires slabFull == HeadOf(full) && slabEmpty == cur && slabPartial == null
      modifies this`slabPartial, this`slabEmpty, cur`next, cur`last
      ensures ListsValid() && open == [cur] && full == old(full)
    {
      assert Linked(open, 0);
      var ret;
      slabPartial, slabEmpty, ret := MoveSlab(slabPartial, slabEmpty, cur, [], open, 0);
      assert [] + [cur] == open && Linked(open, 0);
      ChainKept(full);
    }

    /** After an object is taken from `cur`: on to the full list with the last one, to the partial list with the first. */
    method Rehome(cur: Node)
      requires open == [cur] && Chain(open) && Chain(full) && cur !in full && cur.available < OBJECTS
      requires slabFull == HeadOf(full)
      requires slabEmpty == (if cur.available == OBJECTS - 1 then cur else null)
      requires slabPartial == (if cur.available == OBJECTS - 1 then null else cur)
      modifies this, cur`next, cur`last, full`next, full`last
      ensures ListsValid()
      ensures open == (if cur.available == 0 then [] else [cur])
      ensures full == if cur.available == 0 then old(full) + [cur] else old(full)
      ensures Views(old(full)) == old(Views(full)) && cur.View() == old(cur.View())
    {
      if cur.available == 0 {
        MoveToFull(cur);
      } else if cur.available == OBJECTS - 1 {
        MoveToPartial(cur);
      }
      ghost var views := Views(old(full));
      assert forall i :: 0 <= i < |views| ==> views[i] == old(full[i].View());
    }

    /** `cache::alloc_obj`: never NULL while pages remain. */
    method AllocObj(address: nat) returns (obj: nat)
      requires Valid() && Supplied(Value(), address)
      modifies this, open, full
      ensures Valid()
      ensures Value() == Slab.AllocObj(old(Value()), address) && obj == AllocResult(old(Value()), address)
    {
      ghost var before := Value();
      AllocKeepsValid(before, address);
      var cur := ServingSlab(address);
      assert cur.available > 0 && cur.available <= OBJECTS by { ServerHasRoom(before, address); }
      obj := TakeFrom(cur, before, address);
      ghost var taken, views := cur.View(), Views(full);
      Rehome(cur);
      AllocatedValue(before, address, Value(), taken, views);
    }

    /** The `scan_slab` lambda of `free_obj` on one list head. */
    method ScanSlab(cur: Node?, obj: nat) returns (ret: int)
      requires size > 0
      modifies if cur != null then {cur} else {}
      ensures ret == 0 || ret == -1
      ensures ret == 0 <==> cur != null && InBuffer(cur.View(), size, obj)
      ensures ret == 0 ==> cur.View() == Clear(old(cur.View()), size, obj)
      ensures cur != null ==> cur.next == old(cur.next) && cur.last == old(cur.last)
      ensures ret == -1 && cur != null ==> cur.View() == old(cur.View())
    {
      if cur == null {
        return -1;
      }
      if cur.buf <= obj && cur.buf + size * OBJECTS > obj {
        var index := (obj - cur.buf) / size;
        cur.bits := cur.bits - {index};
        return 0;
      }
      return -1;
    }

    method FreePartial(obj: nat) returns (ret: int)
      requires ListsValid() && size > 0
      modifies open
      ensures ListsValid() && ret in {0, -1} && Views(full) == old(Views(full))
      ensures var v := old(Views(open)); ret == 0 <==> v != [] && Partial(v[0]) && InBuffer(v[0], size, obj)
      ensures var v := old(Views(open)); Views(open) == if ret == 0 then [Clear(v[0], size, obj)] else v
    {
      assert forall i :: 0 <= i < |full| && open != [] ==> full[i] != open[0];
      ret := ScanSlab(slabPartial, obj);
      ChainKept(open);
      ChainKept(full);
      assert Views(full) == old(Views(full));
    }

    method FreeFull(obj: nat) returns (ret: int)
      requires ListsValid() && size > 0
      modifies full
      ensures ListsValid() && ret in {0, -1} && Views(open) == old(Views(open))
      ensures var v := old(Views(full)); ret == 0 <==> v != [] && InBuffer(v[0], size, obj)
      ensures var v := old(Views(full)); Views(full) == if ret == 0 then v[0 := Clear(v[0], size, obj)] else v
    {
      assert forall i :: 0 <= i < |open| && full != [] ==> full[0] != open[i];
      ret := ScanSlab(slabFull, obj);
      ChainKept(open);
      ChainKept(full);
      assert Views(open) == old(Views(open));
      assert forall i :: 0 < i < |full| ==> full[i] != full[0];
    }

    /** `cache::free_obj`: the partial list's head, then the full list's head, and no other slab. */
    method FreeObj(obj: nat) returns (ret: int)
      requires Valid()
      modifies open, full
      ensures Valid()
      ensures Value() == Slab.FreeObj(old(Value()), obj).0 && (ret == 0 <==> Slab.FreeObj(old(Value()), obj).1)
    {
      ghost var after := Slab.FreeObj(Value(), obj).0;
      FreeKeepsValid(Value(), obj);
      ret := FreePartial(obj);
      if ret == 0 {
        assert Value() == after;
        return;
      }
      ret := FreeFull(obj);
      assert Value() == after;
    }

    method TakeFrom(cur: Node, ghost before: CacheView, ghost address: nat) returns (obj: nat)
      requires ListsValid() && open == [cur] && cur.View() == Server(before, address) && before.size == size
      requires FirstClear(cur.bits, 0) < OBJECTS && cur.available > 0
      modifies cur`bits, cur`available
      ensures cur.View() == Take(Server(before, address)) && obj == AllocResult(before, address)
      ensures cur.available == old(cur.available) - 1
      ensures Chain(open) && Chain(full) && cur !in full && Views(full) == old(Views(full))
    {
      assert forall i :: 0 <= i < |full| ==> full[i] != open[0];
      obj := cur.Alloc(size);
      ChainKept(open);
      ChainKept(full);
      assert Views(full) == old(Views(full));
    }
  }

  lemma ServerHasRoom(c: CacheView, address: nat)
    requires Slab.Valid(c) && Supplied(c, address)
    ensures 0 < Server(c, address).available <= OBJECTS
  {
    if c.open != [] {
      assert SlabValid(Slabs(c)[|c.full|], c.size);
    }
  }

  lemma AllocatedValue(c: CacheView, address: nat, r: CacheView, taken: SlabView, views: seq<SlabView>)
    requires taken == Take(Server(c, address)) && views == c.full && r.size == c.size
    requires r.open == (if taken.available == 0 then [] else [taken])
    requires r.full == if taken.available == 0 then views + [taken] else views
    ensures r == Slab.AllocObj(c, address)
  {
  }

  twostate lemma ChainKept(l: seq<Node>)
    requires old(Chain(l)) && forall i :: 0 <= i < |l| ==> l[i].next == old(l[i].next) && l[i].last == old(l[i].last)
    ensures Chain(l)
  {
    forall i | 0 <= i < |l|
      ensures Linked(l, i)
    {
      assert old(Linked(l, i));
    }
  }
}
