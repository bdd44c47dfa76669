/** Slab pools: equal blocks on a free list threaded through their first eight bytes. */
module Slab {
  import opened Options
  import opened Cells
  import Bits
  import Arena

  const LINK: nat := 8
  const CLASSES: seq<nat> := [64, 256, 512, 4096]

  type Ptr = Option<nat>

  /** The free blocks, linked through next, in order. */
  predicate Chain(links: seq<Ptr>, head: Ptr, ids: seq<nat>)
    decreases ids
  {
    if ids == [] then head == None
    else head == Some(ids[0]) && ids[0] < |links| && Chain(links, links[ids[0]], ids[1..])
  }

  lemma {:induction false} ChainSame(links: seq<Ptr>, links': seq<Ptr>, head: Ptr, ids: seq<nat>)
    requires Chain(links, head, ids) && |links| == |links'|
    requires forall k :: k in ids && k < |links| ==> links'[k] == links[k]
    ensures Chain(links', head, ids)
    decreases ids
  {
    if ids != [] { ChainSame(links, links', links[ids[0]], ids[1..]); }
  }

  /** Each block exactly once, either free or handed out. */
  ghost predicate Partition(free: seq<nat>, held: multiset<nat>, count: nat)
  {
    multiset(free) + held == Range(0, count)
  }

  lemma PartitionFacts(free: seq<nat>, held: multiset<nat>, count: nat)
    requires Partition(free, held, count)
    ensures forall k :: k in held ==> k < count && k !in free && held[k] == 1
    ensures forall k :: k in free ==> k < count && k !in held && multiset(free)[k] == 1
  {
    forall k: nat ensures multiset(free)[k] + held[k] == if k < count then 1 else 0 {
      assert (multiset(free) + held)[k] == Range(0, count)[k];
    }
    forall k | k in held ensures k < count && k !in free && held[k] == 1 {
      assert k in free <==> multiset(free)[k] > 0;
    }
    forall k | k in free ensures k < count && k !in held && multiset(free)[k] == 1 {
      assert k in free <==> multiset(free)[k] > 0;
    }
  }

  class Pool {
    const blockSize: nat
    const blockCount: nat
    /** The next field of each block; the block i starts at byte i * blockSize. */
    var links: seq<Ptr>
    var freeList: Ptr
    ghost var free: seq<nat>
    ghost var held: multiset<nat>

    ghost predicate Valid()
      reads this
    {
      && blockSize > LINK && |links| == blockCount
      && Chain(links, freeList, free) && Partition(free, held, blockCount)
    }

    /** init_pool: every block is free, the last one first. */
    constructor (size: nat, count: nat)
      requires size > LINK
      ensures Valid() && held == multiset{} && |free| == count && blockSize == size && blockCount == count
    {
      blockSize, blockCount := size, count;
      var ls: seq<Ptr> := seq(count, _ => None);
      var head: Ptr := None;
      ghost var ids: seq<nat> := [];
      for i := 0 to count
        invariant |ls| == count && Chain(ls, head, ids) && |ids| == i
        invariant (forall k :: k in ids ==> k < i) && multiset(ids) == Range(0, i)
      {
        ghost var before, tail := ls, ids;
        ls := ls[i := head];
        ChainSame(before, ls, head, tail);
        head := Some(i);
        ids := [i] + tail;
        assert ids[1..] == tail && multiset(ids) == multiset{i} + multiset(tail);
      }
      links, freeList, free, held := ls, head, ids, multiset{};
    }

    /** Takes the first free block; the caller gets the bytes after its link. */
    method Alloc() returns (r: Option<nat>)
      requires Valid()
      modifies this`links, this`freeList, this`free, this`held
      ensures Valid()
      ensures r.None? <==> old(free) == []
      ensures r.None? ==> free == old(free) && held == old(held)
      ensures r.Some? ==> old(free) != [] && r.value == old(free)[0] * blockSize + LINK
                          && free == old(free)[1..] && held == old(held) + multiset{old(free)[0]}
    {
      if freeList.None? {
        return None;
      }
      var id := freeList.value;
      TakeFirst(free, held, blockCount);
      ghost var before := links;
      freeList := links[id];
      links := links[id := None];
      free := free[1..];
      held := held + multiset{id};
      ChainSame(before, links, freeList, free);
      r := Some(id * blockSize + LINK);
    }

    /** Returns a block by the address it was handed out under. */
    method Free(ptr: nat, ghost id: nat)
      requires Valid() && id in held && ptr == id * blockSize + LINK
      modifies this`links, this`freeList, this`free, this`held
      ensures Valid() && free == [id] + old(free) && held == old(held) - multiset{id}
    {
      var block := (ptr - LINK) / blockSize;
      BlockOf(id, blockSize);
      PartitionFacts(free, held, blockCount);
      ghost var before := links;
      links := links[block := freeList];
      ChainSame(before, links, freeList, free);
      freeList := Some(block);
      GiveBack(free, held, blockCount, id);
      free := [id] + free;
      held := held - multiset{id};
      assert free[1..] == old(free);
    }
  }

  lemma TakeFirst(free: seq<nat>, held: multiset<nat>, count: nat)
    requires Partition(free, held, count) && free != []
    ensures Partition(free[1..], held + multiset{free[0]}, count) && free[0] !in free[1..]
  {
    var id := free[0];
    assert free == [id] + free[1..];
    assert multiset(free) == multiset{id} + multiset(free[1..]);
    PartitionFacts(free, held, count);
    assert multiset(free)[id] == 1 + multiset(free[1..])[id];
  }

  lemma GiveBack(free: seq<nat>, held: multiset<nat>, count: nat, id: nat)
    requires Partition(free, held, count) && id in held
    ensures Partition([id] + free, held - multiset{id}, count)
  {
    assert held == (held - multiset{id}) + multiset{id};
    assert multiset([id] + free) == multiset{id} + multiset(free);
  }

  lemma BlockOf(id: nat, size: nat)
    requires size > 0
    ensures id * size / size == id
  {
    Bits.ModUnique(id * size, size, id, 0);
  }

  /** The data areas of two blocks never overlap, and none reaches the next block's link. */
  lemma DataApart(i: nat, j: nat, size: nat)
    requires i < j && size > LINK
    ensures i * size + LINK + (size - LINK) <= j * size
  {
    assert (i + 1) * size <= j * size;
  }

  // ----- Size classes -----

  /** The pool that serves a request: the smallest class that is not below it. */
  function ClassOf(size: nat): (c: Option<nat>)
    ensures c.Some? ==> c.value < |CLASSES| && size <= CLASSES[c.value]
    ensures c.Some? ==> forall d :: 0 <= d < c.value ==> CLASSES[d] < size
    ensures c.None? <==> size > 4096
  {
    if size <= 64 then Some(0)
    else if size <= 256 then Some(1)
    else if size <= 512 then Some(2)
    else if size <= 4096 then Some(3)
    else None
  }

  /** The bytes a caller may use of a block of the class that serves its request. */
  function Usable(size: nat): nat
    requires ClassOf(size).Some?
  {
    CLASSES[ClassOf(size).value] - LINK
  }

  /** A block holds what was asked for unless the request lies within a link's width below its class size. */
  lemma UsableExact(size: nat)
    requires ClassOf(size).Some?
    ensures size <= Usable(size) <==>
            !(56 < size <= 64 || 248 < size <= 256 || 504 < size <= 512 || 4088 < size <= 4096)
  {
  }

  /** What the pools ask the arena for, class by class. */
  function PoolRequests(counts: seq<nat>): (qs: seq<Arena.Request>)
    requires |counts| == |CLASSES|
    ensures |qs| == |counts| && forall i :: 0 <= i < |qs| ==> qs[i] == Arena.Request(CLASSES[i] * counts[i], 6)
  {
    seq(|counts|, i requires 0 <= i < |counts| => Arena.Request(CLASSES[i] * counts[i], 6))
  }

  /** The slab: one pool for each class. */
  class Slabs {
    const pools: seq<Pool>

    ghost predicate Valid()
      reads this, pools
    {
      && |pools| == |CLASSES|
      && (forall i, j :: 0 <= i < j < |pools| ==> pools[i] != pools[j])
      && forall i :: 0 <= i < |pools| ==> pools[i].Valid() && pools[i].blockSize == CLASSES[i]
    }

    constructor (c64: nat, c256: nat, c512: nat, c4096: nat)
      ensures Valid() && forall i :: 0 <= i < |pools| ==> pools[i].held == multiset{} && |pools[i].free| == [c64, c256, c512, c4096][i]
      ensures fresh(pools)
    {
      hide Chain, Partition;
      var p0 := new Pool(64, c64);
      var p1 := new Pool(256, c256);
      var p2 := new Pool(512, c512);
      var p3 := new Pool(4096, c4096);
      pools := [p0, p1, p2, p3];
    }

    /**
    zedis_slab_init, if no pool's size overflows 64 bits: refused exactly when the arena cannot give each class
    its blocks, one class after the other; a class without blocks is refused too.
    */
    static method Init(arena: Arena.BumpArena, counts: seq<nat>) returns (r: Option<Slabs>)
      requires arena.Valid() && |counts| == |CLASSES|
      requires forall i :: 0 <= i < |counts| ==> CLASSES[i] * counts[i] < Bits.Pow2(64)
      modifies arena`offset, arena`blocks
      ensures arena.Valid()
      ensures r.Some? <==> forall i :: 0 <= i < |counts| ==>
                             Arena.Grants(old(arena.offset), arena.mem.Length, PoolRequests(counts))[i].Some?
      ensures r.Some? ==> r.value.Valid() && fresh(r.value) && fresh(r.value.pools)
      ensures r.Some? ==> forall i :: 0 <= i < |CLASSES| ==>
                r.value.pools[i].held == multiset{} && |r.value.pools[i].free| == counts[i]
    {
      hide Chain, Partition, Bits.Pow2, Arena.Grants, Arena.Granted, Arena.Disjoint, Arena.LaidOut;
      var i := 0;
      ghost var offset, qs := arena.offset, PoolRequests(counts);
      ghost var all := Arena.Grants(offset, arena.mem.Length, qs);
      Bits.SixtyFour();
      while i < |counts|
        invariant i <= |counts| && arena.Valid()
        invariant forall k :: 0 <= k < i ==> all[k].Some?
        invariant all[i..] == Arena.Grants(arena.offset, arena.mem.Length, qs[i..])
      {
        Arena.GrantsNext(arena.offset, arena.mem.Length, qs, i);
        assert all[i] == all[i..][0] && all[i + 1..] == all[i..][1..];
        var at := arena.Alloc(CLASSES[i] * counts[i], 64, 6);
        if at.None? {
          return None;
        }
        i := i + 1;
      }
      var slabs := new Slabs(counts[0], counts[1], counts[2], counts[3]);
      r := Some(slabs);
    }

    /** A block from the pool of the request's class; every other pool is left alone. */
    method Alloc(size: nat) returns (r: Option<nat>)
      requires Valid()
      modifies pools
      ensures Valid()
      ensures r.None? <==> ClassOf(size).None? || old(pools[ClassOf(size).value].free) == []
      ensures r.Some? ==> var p := pools[ClassOf(size).value]; var id := old(p.free)[0];
                          && r.value == id * p.blockSize + LINK
                          && p.held == old(p.held) + multiset{id} && p.free == old(p.free)[1..]
      ensures forall i :: 0 <= i < |pools| && (r.None? || Some(i) != ClassOf(size)) ==>
                pools[i].held == old(pools[i].held) && pools[i].free == old(pools[i].free)
    {
      hide Chain, Partition;
      var c := ClassOf(size);
      if c.None? {
        return None;
      }
      r := pools[c.value].Alloc();
    }

    /** Takes a block back into the pool of the size it is freed with, which must be the one it came from. */
    method Free(ptr: nat, size: nat, ghost id: nat)
      requires Valid()
      requires ClassOf(size).Some? ==>
                 id in pools[ClassOf(size).value].held && ptr == id * pools[ClassOf(size).value].blockSize + LINK
      modifies pools
      ensures Valid()
      ensures ClassOf(size).Some? ==>
                var p := pools[ClassOf(size).value];
                p.held == old(p.held) - multiset{id} && p.free == [id] + old(p.free)
      ensures forall i :: 0 <= i < |pools| && Some(i) != ClassOf(size) ==>
                pools[i].held == old(pools[i].held) && pools[i].free == old(pools[i].free)
    {
      hide Chain, Partition;
      var c := ClassOf(size);
      if c.None? {
        return;
      }
      pools[c.value].Free(ptr, id);
    }
  }
}
