/**
 The operations of the slab allocator (kernel/mm/slab.c) on all its caches, and
 kmalloc and kfree. The page blocks that the page allocator hands out are parameters.
 */
module SlabOps {
  import opened Arith
  import opened Lists
  import opened Options
  import opened Slab

  type FreeObjects = map<nat, seq<nat>>

  const MIN_ORDER: nat := 6
  const MAX_ORDER: nat := 18
  const WORD_BYTES: nat := 4

  /** Slabs of different caches are in different blocks. */
  ghost predicate Separate(caches: seq<Cache>)
  {
    forall i, j, a, b :: 0 <= i < j < |caches| && a in caches[i].header && b in caches[j].header ==>
      Apart(caches[i].header[a].addr, BlockSize(caches[i].order), caches[j].header[b].addr, BlockSize(caches[j].order))
  }

  /** A block apart from all slabs. */
  ghost predicate NewBlock(caches: seq<Cache>, addr: nat, order: nat)
  {
    addr > 0 && forall i, a :: 0 <= i < |caches| && a in caches[i].header ==>
      Apart(addr, BlockSize(order), caches[i].header[a].addr, BlockSize(caches[i].order))
  }

  ghost predicate AllOk(caches: seq<Cache>, lists: seq<FreeObjects>)
  {
    |lists| == |caches| && (forall i :: 0 <= i < |caches| ==> CacheOk(caches[i], lists[i])) && Separate(caches)
  }

  /** A change to one cache that gives it no block it did not have. */
  lemma OneCache(caches: seq<Cache>, lists: seq<FreeObjects>, i: nat, c: Cache, l: FreeObjects)
    requires AllOk(caches, lists) && i < |caches| && CacheOk(c, l) && c.order == caches[i].order
    requires forall a :: a in c.header ==> a in caches[i].header && c.header[a].addr == caches[i].header[a].addr
    ensures AllOk(caches[i := c], lists[i := l])
  {
    hide CacheOk, BlockSize;
  }

  lemma OneCacheMore(caches: seq<Cache>, lists: seq<FreeObjects>, i: nat, c: Cache, l: FreeObjects, addr: nat)
    requires AllOk(caches, lists) && i < |caches| && CacheOk(c, l) && c.order == caches[i].order
    requires NewBlock(caches, addr, c.order)
    requires forall a :: a in c.header ==>
              c.header[a].addr == addr || (a in caches[i].header && c.header[a].addr == caches[i].header[a].addr)
    ensures AllOk(caches[i := c], lists[i := l])
  {
    hide CacheOk, BlockSize;
  }

  /** Objects of different caches do not overlap, bufctls included. */
  lemma AcrossCaches(caches: seq<Cache>, lists: seq<FreeObjects>, i: nat, j: nat, o: nat, p: nat)
    requires AllOk(caches, lists) && i < |caches| && j < |caches| && i != j && o in caches[i].ctl && p in caches[j].ctl
    ensures Apart(o, Stride(caches[i].objsize), p, Stride(caches[j].objsize))
  {
    hide CacheOk, BlockSize, ObjAt, Stride;
    var c, d := caches[i], caches[j];
    var a := SlabOf(c, lists[i], o);
    var b := SlabOf(d, lists[j], p);
    if i < j {
      assert Apart(c.header[a].addr, BlockSize(c.order), d.header[b].addr, BlockSize(d.order));
    } else {
      assert Apart(d.header[b].addr, BlockSize(d.order), c.header[a].addr, BlockSize(c.order));
    }
  }

  lemma SlabOf(c: Cache, l: FreeObjects, o: nat) returns (a: nat)
    requires CacheOk(c, l) && o in c.ctl
    ensures a in c.header && c.header[a].addr <= o && o + Stride(c.objsize) <= c.header[a].addr + BlockSize(c.order)
  {
    hide SlabOk, IsObj, NoDup, ObjAt, SlabSize, BlockSize;
    a :| a in c.header && IsObj(c, c.header[a].addr, o);
    ObjInBlock(c, c.header[a].addr, o);
  }

  /** No two objects overlap, whatever their caches. */
  lemma AllObjectsApart(caches: seq<Cache>, lists: seq<FreeObjects>, i: nat, j: nat, o: nat, p: nat)
    requires AllOk(caches, lists) && i < |caches| && j < |caches| && o in caches[i].ctl && p in caches[j].ctl
    requires i != j || o != p
    ensures Apart(o, Stride(caches[i].objsize), p, Stride(caches[j].objsize))
  {
    hide CacheOk, Stride, Separate;
    if i == j { LiveObjectsApart(caches[i], lists[i], o, p); } else { AcrossCaches(caches, lists, i, j, o, p); }
  }

  // Blocks handed out by kmalloc

  /** The object that the block at addr is part of. */
  function ObjOf(addr: nat): int { addr - WORD_BYTES - REDZONE }

  /** The block at addr is in an object in use of cache k, and the word in front of it says so. */
  ghost predicate BlockOk(caches: seq<Cache>, tags: map<nat, nat>, addr: nat, k: nat)
  {
    && ObjOf(addr) > 0 && k < |caches| && InUse(caches[k], ObjOf(addr))
    && addr - WORD_BYTES in tags && tags[addr - WORD_BYTES] == k
  }

  ghost predicate BlocksOk(caches: seq<Cache>, tags: map<nat, nat>, owner: map<nat, nat>)
  {
    forall addr :: addr in owner ==> BlockOk(caches, tags, addr, owner[addr])
  }

  lemma BlocksKept(caches: seq<Cache>, caches': seq<Cache>, tags: map<nat, nat>, owner: map<nat, nat>)
    requires BlocksOk(caches, tags, owner) && |caches'| == |caches|
    requires forall i, o :: 0 <= i < |caches| && InUse(caches[i], o) ==> InUse(caches'[i], o)
    ensures BlocksOk(caches', tags, owner)
  {
    forall addr | addr in owner ensures BlockOk(caches', tags, addr, owner[addr]) {
      assert BlockOk(caches, tags, addr, owner[addr]);
    }
  }

  /** Giving an object back that is no block. */
  lemma BlocksBut(caches: seq<Cache>, caches': seq<Cache>, tags: map<nat, nat>, owner: map<nat, nat>, k: nat, o: nat)
    requires BlocksOk(caches, tags, owner) && GivenBackTo(caches, caches', k, o) && o + REDZONE + WORD_BYTES !in owner
    ensures BlocksOk(caches', tags, owner)
  {
    forall addr | addr in owner ensures BlockOk(caches', tags, addr, owner[addr]) {
      assert BlockOk(caches, tags, addr, owner[addr]);
    }
  }

  /** The object just handed out was no block, so writing its tag touches that of no other. */
  lemma NewTag(before: seq<Cache>, caches: seq<Cache>, lists: seq<FreeObjects>, tags: map<nat, nat>, owner: map<nat,
               nat>,
               k: nat, o: nat)
    requires AllOk(caches, lists) && BlocksOk(before, tags, owner) && BlocksOk(caches, tags, owner) && o > 0
    requires k < |before| == |caches| && caches == before[k := caches[k]] && HandedOut(before[k], caches[k], o)
    ensures var addr := o + REDZONE + WORD_BYTES;
            addr !in owner && BlocksOk(caches, tags[o + REDZONE := k], owner[addr := k])
  {
    hide CacheOk, Separate, Stride;
    var addr := o + REDZONE + WORD_BYTES;
    if addr in owner {
      assert BlockOk(before, tags, addr, owner[addr]);
      assert owner[addr] != k;
      AcrossCaches(caches, lists, k, owner[addr], o, o);
      StridePositive(caches[k].objsize);
      StridePositive(caches[owner[addr]].objsize);
    }
    var tags', owner' := tags[o + REDZONE := k], owner[addr := k];
    forall a | a in owner' ensures BlockOk(caches, tags', a, owner'[a]) {
      if a != addr { assert BlockOk(caches, tags, a, owner[a]); }
    }
  }

  lemma StridePositive(objsize: nat)
    ensures Stride(objsize) > 0
  {
  }

  /** Two blocks do not overlap, nor does one overlap the other's tag. */
  lemma BlocksApart(caches: seq<Cache>, lists: seq<FreeObjects>, tags: map<nat, nat>, owner: map<nat, nat>, a: nat,
                    b: nat)
    requires AllOk(caches, lists) && BlocksOk(caches, tags, owner) && a in owner && b in owner && a != b
    ensures owner[a] < |caches| && owner[b] < |caches| && ObjOf(a) > 0 && ObjOf(b) > 0
    ensures Apart(ObjOf(a), caches[owner[a]].objsize, ObjOf(b), caches[owner[b]].objsize)
  {
    hide AllOk;
    assert BlockOk(caches, tags, a, owner[a]) && BlockOk(caches, tags, b, owner[b]);
    AllObjectsApart(caches, lists, owner[a], owner[b], ObjOf(a), ObjOf(b));
  }

  class Allocators {
    var caches: seq<Cache>
    /** The words in front of the blocks: numbers of caches. */
    var tags: map<nat, nat>
    ghost var lists: seq<FreeObjects>
    /** The blocks handed out and not yet freed, and the caches they came from. */
    ghost var owner: map<nat, nat>

    ghost predicate Sane()
      reads this
    {
      AllOk(caches, lists)
    }

    ghost predicate Valid()
      reads this
    {
      Sane() && BlocksOk(caches, tags, owner)
    }

    /** _slab_allocator_grow: a new slab at the head of the list, all its objects free. */
    method Grow(i: nat, page: nat)
      requires Sane() && i < |caches| && NewBlock(caches, page, caches[i].order)
      modifies this`caches, this`lists
      ensures Sane() && |caches| == |old(caches)| && caches == old(caches)[i := caches[i]]
      ensures var c := old(caches)[i];
              var id := ObjAt(c, page, c.nobjs);
              && id !in c.header && caches[i] == Grown(c, page, caches[i].ctl)
              && Threaded(c, caches[i].ctl, page)
              && (forall o :: o in caches[i].ctl <==> o in c.ctl || IsObj(c, page, o))
              && (forall o :: o in c.ctl && !IsObj(c, page, o) ==> caches[i].ctl[o] == c.ctl[o])
    {
      hide CacheOk, BlockSize, SlabOk, ObjAt, IsObj, Separate;
      var c := caches[i];
      CacheHas(c, lists[i]);
      var ctl := Thread(c, page);
      GrownOk(c, lists[i], page, ctl);
      ghost var id := ObjAt(c, page, c.nobjs);
      OneCacheMore(caches, lists, i, Grown(c, page, ctl), lists[i][id := ObjsFrom(c, page, 0)], page);
      caches := caches[i := Grown(c, page, ctl)];
      lists := lists[i := lists[i][id := ObjsFrom(c, page, 0)]];
    }

    /** The search for a slab that is not full, from the head of the list. */
    method FindSlab(i: nat) returns (r: Option<nat>)
      requires Sane() && i < |caches|
      ensures r.Some? ==> r.value in caches[i].header && caches[i].header[r.value].inuse < caches[i].nobjs
      ensures r.None? ==> forall id :: id in caches[i].header ==> caches[i].header[id].inuse == caches[i].nobjs
    {
      hide CacheOk, Separate;
      var c := caches[i];
      CacheHas(c, lists[i]);
      var k := 0;
      while k < |c.slabs|
        invariant 0 <= k <= |c.slabs| && forall j :: 0 <= j < k ==> c.header[c.slabs[j]].inuse == c.nobjs
      {
        assert c.slabs[k] in c.header;
        InUseAtMost(c, lists[i], c.slabs[k]);
        if c.header[c.slabs[k]].inuse != c.nobjs {
          return Some(c.slabs[k]);
        }
        k := k + 1;
      }
      return None;
    }

    /**
     slab_obj_alloc: an object that was free, or one of a new slab; no other object changes hands. It fails only if no
     slab has a free object and there is no block for a new slab. The pointer is past the red zone.
     */
    method ObjAlloc(i: nat, page: Option<nat>) returns (r: Option<nat>)
      requires Valid() && i < |caches| && (page.Some? ==> NewBlock(caches, page.value, caches[i].order))
      modifies this`caches, this`lists
      ensures Valid() && |caches| == |old(caches)| && caches == old(caches)[i := caches[i]]
      ensures SameKind(old(caches)[i], caches[i])
      ensures r.None?
         <==> page.None? && old(AllFull(i))
      ensures r.None? ==> caches == old(caches)
      ensures r.Some? ==> r.value > REDZONE && HandedOut(old(caches)[i], caches[i], r.value - REDZONE)
      ensures r.Some? ==> GrownIf(old(caches)[i], caches[i], old(AllFull(i)))
    {
      hide CacheOk, Separate, IsObj, ObjAt, Threaded, BlockSize, Taken, BlocksOk;
      ghost var c0 := caches[i];
      var found := FindSlab(i);
      if found.None? {
        if page.None? {
          return None;
        }
        FreshObjects(c0, lists[i], page.value);
        CacheHas(c0, lists[i]);
        Grow(i, page.value);
        NewSlabHasRoom(c0, page.value, caches[i].ctl);
        found := FindSlab(i);
      }
      var c1 := caches[i];
      var id := found.value;
      TakenOk(c1, lists[i], id);
      TakenIs(c1, id);
      var obj := caches[i].header[id].free;
      GrewAndTook(c0, c1, id, if page.Some? then page.value else 0);
      OneCache(caches, lists, i, Taken(c1, id), lists[i][id := lists[i][id][1..]]);
      lists := lists[i := lists[i][id := lists[i][id][1..]]];
      caches := caches[i := Taken(c1, id)];
      BlocksKept(old(caches), caches, tags, owner);
      return Some(obj + REDZONE);
    }

    /** slab_obj_free, for an object in use that is not a block of kmalloc: its slab gets it back. */
    method ObjFree(i: nat, p: nat)
      requires Valid() && i < |caches| && p > REDZONE && InUse(caches[i], p - REDZONE) && p + WORD_BYTES !in owner
      modifies this`caches, this`lists
      ensures Valid() && GivenBackTo(old(caches), caches, i, p - REDZONE)
    {
      hide CacheOk, Separate, BlockSize, BlocksOk;
      var c, o := caches[i], p - REDZONE;
      GivenOk(c, lists[i], o);
      ghost var id := c.ctl[o].slab;
      OneCache(caches, lists, i, Given(c, o), lists[i][id := [o] + lists[i][id]]);
      lists := lists[i := lists[i][id := [o] + lists[i][id]]];
      caches := caches[i := Given(c, o)];
      BlocksBut(old(caches), caches, tags, owner, i, o);
    }

    /** The walk over the slabs of one cache: slabs with no object in use go, until the target is met. */
    method ReclaimCache(i: nat, target: int, freed: nat) returns (n: nat, met: bool, ghost k: nat)
      requires Sane() && i < |caches|
      modifies this`caches, this`lists
      ensures Sane() && |caches| == |old(caches)| && caches == old(caches)[i := caches[i]]
      ensures k <= |old(caches)[i].slabs| && caches[i] == Reclaimed(old(caches)[i], k)
      ensures n == freed + Empties(old(caches)[i], k) * Pow2(old(caches)[i].order)
      ensures met <==> target > 0 && n >= target && old(caches)[i].slabs != []
      ensures !met ==> k == |old(caches)[i].slabs|
      ensures target > 0 && freed < target && !met ==> n < target
      ensures freed < target && met ==>
                k > 0 && freed + Empties(old(caches)[i], k - 1) * Pow2(old(caches)[i].order) < target
    {
      hide CacheOk, Separate, BlockSize, Pow2, Reclaimed, Empties, Listed;
      ghost var c0 := caches[i];
      CacheHas(c0, lists[i]);
      Pow2Positive(c0.order);
      NothingReclaimed(c0);
      n, k := freed, 0;
      var slabs, j: nat := caches[i].slabs, 0;
      while j < |slabs|
        invariant j <= |slabs| && slabs == c0.slabs && k == j && Sane() && |caches| == |old(caches)|
        invariant caches == old(caches)[i := caches[i]]
        invariant caches[i] == Reclaimed(c0, j) && n == freed + Empties(c0, j) * Pow2(c0.order)
        invariant j > 0 || freed < target ==> !(target > 0 && n >= target)
      {
        var s := slabs[j];
        MoreEmpties(c0, j, Pow2(c0.order));
        NextReclaimed(c0, j);
        if caches[i].header[s].inuse == 0 {
          DroppedOk(caches[i], lists[i], s);
          OneCache(caches, lists, i, Dropped(caches[i], s), lists[i] - {s});
          lists := lists[i := lists[i] - {s}];
          n := n + Pow2(caches[i].order);
          caches := caches[i := Dropped(caches[i], s)];
        }
        j, k := j + 1, j + 1;
        if target > 0 && n >= target {
          return n, true, k;
        }
      }
      met := false;
    }

    /**
     slab_allocators_reclaim: of each cache, some first part of the list has been looked at and its slabs without
     objects in use are gone; with no target, that is the whole list of every cache. With a target it stops at the
     first slab that meets it.
     */
    method Reclaim(target: int) returns (n: nat, ghost ks: seq<nat>, ghost at: nat)
      requires Valid()
      modifies this`caches, this`lists
      ensures Valid() && AllReclaimed(old(caches), caches, ks, n)
      ensures target <= 0 || n < target ==> forall i :: 0 <= i < |caches| ==> ks[i] == |old(caches)[i].slabs|
      ensures target > 0 && n >= target ==> StopsAt(old(caches), ks, target, at)
    {
      hide AllOk, Reclaimed, Empties, Listed, Progress, AllReclaimed, BlocksOk, StopsAt;
      n, ks, at := 0, seq(|caches|, _ => 0), 0;
      NoProgress(caches, lists);
      var i: nat := 0;
      while i < |caches|
        invariant i <= |caches| && Sane() && |caches| == |old(caches)| && Progress(old(caches), caches, ks, i, n)
        invariant target > 0 ==> n < target
      {
        var met;
        ghost var k;
        ghost var before, freed := caches, n;
        ProgressAt(old(caches), caches, ks, i, n);
        n, met, k := ReclaimCache(i, target, n);
        Advance(old(caches), before, caches, ks, ks[i := k], i, freed, n);
        if met { StopsHere(old(caches), before, ks, i, freed, k, target); }
        ks := ks[i := k];
        if met {
          at := i;
          Stopped(old(caches), caches, ks, i, n);
          ReclaimedBlocks(old(caches), old(lists), caches, ks, n, tags, owner);
          return;
        }
        i := i + 1;
      }
      Finished(old(caches), caches, ks, n);
      ReclaimedBlocks(old(caches), old(lists), caches, ks, n, tags, owner);
    }

    /** The caches for the sizes 64 to 262144 come first; each object has room for its red zones. */
    ghost predicate KmallocReady()
      reads this
    {
      && |caches| > MAX_ORDER - MIN_ORDER
      && forall k: nat :: k <= MAX_ORDER - MIN_ORDER ==> caches[k].objsize == Pow2(MIN_ORDER + k) + 2 * REDZONE
    }

    /** Every slab of cache k is full. */
    ghost predicate AllFull(k: nat)
      requires k < |caches|
      reads this
    {
      forall id :: id in caches[k].header ==> caches[k].header[id].inuse == caches[k].nobjs
    }

    /**
     kmalloc: from the first cache whose objects are large enough, an object with the cache's number in front. It panics
     if the size is too large for all, and is out of memory if that cache is full and there is no block for a new slab.
     What is handed out has room for size bytes exactly if the size with the number does not wrap around.
     */
    method Kmalloc(size: nat, pages: seq<Option<nat>>) returns (r: Allocation, ghost k: nat)
      requires Valid() && KmallocReady() && |pages| == |caches| && size < WORD
      requires forall j :: 0 <= j < |caches| && pages[j].Some? ==> NewBlock(caches, pages[j].value, caches[j].order)
      modifies this
      ensures Valid() && |caches| == |old(caches)| && KmallocReady()
      ensures r == Panic <==> Wrapped(size + WORD_BYTES) > Pow2(MAX_ORDER)
      ensures r != Panic ==> k < |caches| && FirstFit(k, Wrapped(size + WORD_BYTES))
      ensures r != Panic ==> (r == OutOfMemory <==> pages[k].None? && old(AllFull(k)))
      ensures !r.Block? ==> caches == old(caches) && tags == old(tags) && owner == old(owner)
      ensures r.Block? ==> caches == old(caches)[k := caches[k]] && ObjOf(r.addr) > 0
      ensures r.Block? ==> HandedOut(old(caches)[k], caches[k], ObjOf(r.addr))
      ensures r.Block? ==> GrownIf(old(caches)[k], caches[k], old(AllFull(k)))
      ensures r.Block? ==> r.addr !in old(owner) && owner == old(owner)[r.addr := k]
      ensures r.Block? ==> tags == old(tags)[r.addr - WORD_BYTES := k]
      ensures r.Block? ==> (r.addr + size <= ObjOf(r.addr) + caches[k].objsize - REDZONE <==> size + WORD_BYTES < WORD)
    {
      hide AllOk, Pow2, BlocksOk;
      k := 0;
      var total := Wrapped(size + WORD_BYTES);
      var order: nat := MIN_ORDER;
      while order <= MAX_ORDER
        invariant MIN_ORDER <= order <= MAX_ORDER + 1 && caches == old(caches) && tags == old(tags)
        invariant owner == old(owner)
        invariant Valid() && KmallocReady()
        invariant forall j: nat :: MIN_ORDER <= j < order ==> Pow2(j) < total
      {
        if Pow2(order) >= total {
          var j := order - MIN_ORDER;
          k := j;
          SmallerPower(order, MAX_ORDER);
          LargestSize();
          var p := ObjAlloc(j, pages[j]);
          if p.None? {
            return OutOfMemory, k;
          }
          NewTag(old(caches), caches, lists, tags, owner, j, p.value - REDZONE);
          tags := tags[p.value := j];
          owner := owner[p.value + WORD_BYTES := j];
          return Block(p.value + WORD_BYTES), k;
        }
        order := order + 1;
      }
      return Panic, 0;
    }

    /** kfree: a block goes back to the cache it came from, and no other block is touched. */
    method Kfree(addr: nat)
      requires Valid() && addr in owner
      modifies this`caches, this`lists, this`owner
      ensures Valid() && owner == old(owner) - {addr}
      ensures GivenBackTo(old(caches), caches, old(owner)[addr], ObjOf(addr))
    {
      hide AllOk;
      assert BlockOk(caches, tags, addr, owner[addr]);
      owner := owner - {addr};
      var p := addr - WORD_BYTES;
      ObjFree(tags[p], p);
    }
  }

  datatype Allocation = Block(addr: nat) | OutOfMemory | Panic

  /** Reclaiming leaves every block where it is. */
  lemma ReclaimedBlocks(caches: seq<Cache>, lists: seq<FreeObjects>, caches': seq<Cache>, ks: seq<nat>, n: int,
                        tags: map<nat, nat>, owner: map<nat, nat>)
    requires AllOk(caches, lists) && AllReclaimed(caches, caches', ks, n) && BlocksOk(caches, tags, owner)
    ensures BlocksOk(caches', tags, owner)
  {
    hide CacheOk, Separate, Reclaimed, BlocksOk, PagesFreed, Listed;
    forall i, o | 0 <= i < |caches| && InUse(caches[i], o) ensures InUse(caches'[i], o) {
      assert ReclaimedTo(caches[i], caches'[i], ks[i]);
      ReclaimKeepsLive(caches[i], lists[i], ks[i]);
    }
    BlocksKept(caches, caches', tags, owner);
  }

  /** The k-th size is the first that is large enough for the request and the cache's number. */
  ghost predicate FirstFit(k: nat, total: nat)
  {
    Pow2(MIN_ORDER + k) >= total && forall j: nat :: MIN_ORDER <= j < MIN_ORDER + k ==> Pow2(j) < total
  }

  lemma LargestSize()
    ensures Pow2(MAX_ORDER) == 0x4_0000
  {
    assert Pow2(6) == 64;
    assert Pow2(12) == 64 * 64;
  }

  /** Of each cache, the first ks[i] slabs have been looked at. */
  ghost predicate Looked(caches: seq<Cache>, ks: seq<nat>)
  {
    |caches| == |ks| && forall i :: 0 <= i < |ks| ==> ks[i] <= |caches[i].slabs| && Listed(caches[i])
  }

  /** The pages of the empty slabs among those looked at, in the first n caches. */
  ghost function PagesFreed(caches: seq<Cache>, ks: seq<nat>, n: nat): int
    requires n <= |ks| && Looked(caches, ks)
  {
    if n == 0 then 0 else PagesFreed(caches, ks, n - 1) + Empties(caches[n - 1], ks[n - 1]) * Pow2(caches[n - 1].order)
  }

  lemma {:induction false} SamePages(caches: seq<Cache>, ks: seq<nat>, ks': seq<nat>, n: nat)
    requires n <= |ks| && Looked(caches, ks) && Looked(caches, ks') && forall i :: 0 <= i < n ==> ks'[i] == ks[i]
    ensures PagesFreed(caches, ks, n) == PagesFreed(caches, ks', n)
  {
    if n > 0 { SamePages(caches, ks, ks', n - 1); }
  }

  lemma {:induction false} NoMorePages(caches: seq<Cache>, ks: seq<nat>, n: nat)
    requires n <= |ks| && Looked(caches, ks)
    requires forall i :: n <= i < |ks| ==> ks[i] == 0
    ensures PagesFreed(caches, ks, |ks|) == PagesFreed(caches, ks, n)
    decreases |ks| - n
  {
    if n < |ks| {
      NoMorePages(caches, ks, n + 1);
      assert Empties(caches[n], 0) * Pow2(caches[n].order) == 0;
    }
  }

  ghost predicate ReclaimedTo(c: Cache, c': Cache, k: nat)
  {
    k <= |c.slabs| && Listed(c) && c' == Reclaimed(c, k)
  }

  /** Every cache has lost its empty slabs among those looked at, n pages in all. */
  ghost predicate AllReclaimed(caches0: seq<Cache>, caches: seq<Cache>, ks: seq<nat>, n: int)
  {
    && Looked(caches0, ks) && |caches| == |caches0| && n == PagesFreed(caches0, ks, |ks|)
    && forall i :: 0 <= i < |caches| ==> ReclaimedTo(caches0[i], caches[i], ks[i])
  }

  /** The first i caches are done, the others untouched. */
  ghost predicate Progress(caches0: seq<Cache>, caches: seq<Cache>, ks: seq<nat>, i: nat, n: int)
  {
    && i <= |ks| && Looked(caches0, ks) && |caches| == |caches0| && n == PagesFreed(caches0, ks, i)
    && (forall j :: 0 <= j < |caches| ==> ReclaimedTo(caches0[j], caches[j], ks[j]))
    && (forall j :: 0 <= j < i ==> ks[j] == |caches0[j].slabs|)
    && (forall j :: i <= j < |ks| ==> ks[j] == 0 && caches[j] == caches0[j])
  }

  lemma NoProgress(caches: seq<Cache>, lists: seq<FreeObjects>)
    requires AllOk(caches, lists)
    ensures Progress(caches, caches, seq(|caches|, _ => 0), 0, 0)
  {
    Untouched(caches, lists);
  }

  lemma ProgressAt(caches0: seq<Cache>, caches: seq<Cache>, ks: seq<nat>, i: nat, n: int)
    requires Progress(caches0, caches, ks, i, n) && i < |caches|
    ensures |ks| == |caches| && caches[i] == caches0[i] && Listed(caches[i])
  {
    assert ReclaimedTo(caches0[i], caches[i], ks[i]);
  }

  lemma Advance(caches0: seq<Cache>, caches: seq<Cache>, caches': seq<Cache>, ks: seq<nat>, ks': seq<nat>, i: nat,
                n: int, n': int)
    requires Progress(caches0, caches, ks, i, n) && i < |caches| && |caches'| == |caches|
    requires caches' == caches[i := caches'[i]]
    requires |ks'| == |ks| && ks' == ks[i := ks'[i]] && ReclaimedTo(caches0[i], caches'[i], ks'[i])
    requires n' == n + Empties(caches0[i], ks'[i]) * Pow2(caches0[i].order)
    ensures ks'[i] == |caches0[i].slabs| ==> Progress(caches0, caches', ks', i + 1, n')
    ensures Looked(caches0, ks') && n' == PagesFreed(caches0, ks', i + 1)
    ensures forall j :: 0 <= j < |caches'| ==> ReclaimedTo(caches0[j], caches'[j], ks'[j])
    ensures forall j :: i + 1 <= j < |ks'| ==> ks'[j] == 0
  {
    hide Listed, Reclaimed, Empties, Pow2;
    LookedFurther(caches0, ks, i, ks'[i]);
    SamePages(caches0, ks, ks', i);
  }

  lemma Stopped(caches0: seq<Cache>, caches: seq<Cache>, ks: seq<nat>, i: nat, n: int)
    requires Looked(caches0, ks) && |caches| == |caches0| && i < |ks| && n == PagesFreed(caches0, ks, i + 1)
    requires forall j :: 0 <= j < |caches| ==> ReclaimedTo(caches0[j], caches[j], ks[j])
    requires forall j :: i + 1 <= j < |ks| ==> ks[j] == 0
    ensures AllReclaimed(caches0, caches, ks, n)
  {
    NoMorePages(caches0, ks, i + 1);
  }

  /** Up to slab ks[at] of cache at everything was looked at, nothing later, and without that slab it was not enough. */
  ghost predicate StopsAt(caches: seq<Cache>, ks: seq<nat>, target: int, at: nat)
  {
    && Looked(caches, ks) && at < |ks| && ks[at] > 0 && Looked(caches, ks[at := ks[at] - 1])
    && (forall j :: 0 <= j < at ==> ks[j] == |caches[j].slabs|) && (forall j :: at < j < |ks| ==> ks[j] == 0)
    && PagesFreed(caches, ks[at := ks[at] - 1], |ks|) < target
  }

  lemma StopsHere(caches0: seq<Cache>, caches: seq<Cache>, ks: seq<nat>, i: nat, n: int, k: nat, target: int)
    requires Progress(caches0, caches, ks, i, n) && i < |ks| && 0 < k <= |caches0[i].slabs| && Listed(caches0[i])
    requires n + Empties(caches0[i], k - 1) * Pow2(caches0[i].order) < target
    ensures StopsAt(caches0, ks[i := k], target, i)
  {
    hide Listed, Empties, Pow2;
    var less := ks[i := k - 1];
    LookedFurther(caches0, ks, i, k);
    LookedFurther(caches0, ks, i, k - 1);
    assert ks[i := k][i := k - 1] == less;
    SamePages(caches0, ks, less, i);
    NoMorePages(caches0, less, i + 1);
  }

  lemma Finished(caches0: seq<Cache>, caches: seq<Cache>, ks: seq<nat>, n: int)
    requires Progress(caches0, caches, ks, |caches|, n)
    ensures AllReclaimed(caches0, caches, ks, n) && forall i :: 0 <= i < |caches| ==> ks[i] == |caches0[i].slabs|
  {
  }

  lemma LookedFurther(caches: seq<Cache>, ks: seq<nat>, i: nat, k: nat)
    requires Looked(caches, ks) && i < |ks| && k <= |caches[i].slabs|
    ensures Looked(caches, ks[i := k])
  {
  }

  lemma Untouched(caches: seq<Cache>, lists: seq<FreeObjects>)
    requires AllOk(caches, lists)
    ensures Looked(caches, seq(|caches|, _ => 0))
    ensures forall i :: 0 <= i < |caches| ==> ReclaimedTo(caches[i], caches[i], 0)
  {
    hide CacheOk;
    forall i | 0 <= i < |caches| ensures ReclaimedTo(caches[i], caches[i], 0) {
      CacheHas(caches[i], lists[i]);
      NothingReclaimed(caches[i]);
    }
  }

  /** The slabs that have objects in use. */
  function Busy(c: Cache, ids: seq<nat>): seq<nat>
    requires forall id :: id in ids ==> id in c.header
  {
    if ids == [] then []
    else Busy(c, ids[..|ids| - 1]) + (if c.header[ids[|ids| - 1]].inuse == 0 then [] else [ids[|ids| - 1]])
  }

  ghost predicate Listed(c: Cache) { NoDup(c.slabs) && forall id :: id in c.slabs <==> id in c.header }

  /**
   The cache after its first k slabs have been looked at: those without objects in use are gone, the rest is as it
   was.
   */
  ghost function Reclaimed(c: Cache, k: nat): Cache
    requires k <= |c.slabs| && Listed(c)
  {
    c.(slabs := Busy(c, c.slabs[..k]) + c.slabs[k..], header := c.header - Gone(c, k),
       ctl := map o | o in c.ctl && !InGone(c, k, o) :: c.ctl[o])
  }

  ghost function Gone(c: Cache, k: nat): set<nat>
    requires k <= |c.slabs| && Listed(c)
  {
    set id | id in c.slabs[..k] && c.header[id].inuse == 0
  }

  /** o was in a block that is gone. */
  ghost predicate InGone(c: Cache, k: nat, o: nat)
    requires k <= |c.slabs| && Listed(c)
  {
    exists id :: id in Gone(c, k) && c.header[id].addr <= o < id
  }

  ghost function Empties(c: Cache, k: nat): nat
    requires k <= |c.slabs| && Listed(c)
  {
    if k == 0 then 0
    else Empties(c, k - 1) + (assert c.slabs[k - 1] in c.slabs; if c.header[c.slabs[k - 1]].inuse == 0 then 1 else 0)
  }

  predicate SameKind(c: Cache, c': Cache) { c'.objsize == c.objsize && c'.order == c.order && c'.nobjs == c.nobjs }

  /** The cache has one slab more, in front of the others, exactly if it was full. */
  ghost predicate GrownIf(c: Cache, c': Cache, full: bool)
  {
    if full then c'.slabs != [] && c'.slabs[1..] == c.slabs && c'.slabs[0] !in c.header else c'.slabs == c.slabs
  }

  /** o was free or did not exist, and is in use now; all that was in use still is, in the same slab. */
  ghost predicate HandedOut(c: Cache, c': Cache, o: nat)
  {
    && o in c'.ctl && c'.ctl[o].Used? && (o in c.ctl ==> c.ctl[o].Free?)
    && (forall p :: p in c.ctl && c.ctl[p].Used? ==> p in c'.ctl && c'.ctl[p] == c.ctl[p])
    && (forall p :: p in c'.ctl && c'.ctl[p].Used? && p != o ==> p in c.ctl && c.ctl[p] == c'.ctl[p])
  }

  predicate InUse(c: Cache, o: nat) { o in c.ctl && c.ctl[o].Used? }

  /** Cache k, and no other, has got object o back. */
  ghost predicate GivenBackTo(before: seq<Cache>, after: seq<Cache>, k: nat, o: nat)
  {
    k < |before| == |after| && after == before[k := after[k]] && GivenBack(before[k], after[k], o)
  }

  ghost predicate GivenBack(c: Cache, c': Cache, o: nat)
  {
    InUse(c, o) && c.ctl[o].slab in c.header && c' == Given(c, o)
  }

  /** Freeing an object right after it was allocated leaves everything as it was. */
  lemma FreeUndoesAlloc(c: Cache, l: FreeObjects, id: nat)
    requires CacheOk(c, l) && id in c.header && c.header[id].inuse < c.nobjs
    ensures c.header[id].free in c.ctl && c.ctl[c.header[id].free].Free?
    ensures GivenBack(Taken(c, id), c, c.header[id].free)
  {
    hide CacheOk, IsObj;
    TakenOk(c, l, id);
    var c' := Given(Taken(c, id), c.header[id].free);
    assert c'.header == c.header && c'.ctl == c.ctl;
  }

  lemma TakenIs(c: Cache, id: nat)
    requires id in c.header && c.header[id].free in c.ctl && c.ctl[c.header[id].free].Free?
    ensures var c' := Taken(c, id);
            && SameKind(c, c') && c'.slabs == c.slabs && c'.header.Keys == c.header.Keys
            && c'.ctl == c.ctl[c.header[id].free := Used(id)]
            && forall a :: a in c.header ==> c'.header[a].addr == c.header[a].addr
  {
  }

  lemma NewSlabHasRoom(c: Cache, addr: nat, ctl: map<nat, Ctl>)
    requires c.nobjs >= 1
    ensures var c' := Grown(c, addr, ctl);
            ObjAt(c, addr, c.nobjs) in c'.header && c'.header[ObjAt(c, addr, c.nobjs)].inuse < c'.nobjs
  {
  }

  lemma FreshObjects(c: Cache, l: FreeObjects, addr: nat)
    requires CacheOk(c, l)
    requires forall a :: a in c.header ==> Apart(addr, BlockSize(c.order), c.header[a].addr, BlockSize(c.order))
    ensures forall o :: o in c.ctl ==> !IsObj(c, addr, o)
  {
    hide SlabOk, IsObj, NoDup, ObjAt, SlabSize, BlockSize;
    forall o | o in c.ctl ensures !IsObj(c, addr, o) {
      var id :| id in c.header && IsObj(c, c.header[id].addr, o);
      NotBoth(c, addr, c.header[id].addr, o);
    }
  }

  lemma GrewAndTook(c0: Cache, c1: Cache, id: nat, page: nat)
    requires id in c1.header && c1.header[id].free in c1.ctl && c1.ctl[c1.header[id].free].Free?
    requires c1 == c0 || (&& c1 == Grown(c0, page, c1.ctl) && Threaded(c0, c1.ctl, page)
                          && (forall o :: o in c1.ctl <==> o in c0.ctl || IsObj(c0, page, o))
                          && (forall o :: o in c0.ctl && !IsObj(c0, page, o) ==> c1.ctl[o] == c0.ctl[o])
                          && (forall o :: o in c0.ctl ==> !IsObj(c0, page, o)))
    ensures HandedOut(c0, Taken(c1, id), c1.header[id].free)
  {
  }

  lemma InUseAtMost(c: Cache, l: FreeObjects, id: nat)
    requires CacheOk(c, l) && id in c.header
    ensures c.header[id].inuse <= c.nobjs
  {
    assert SlabOk(c, id, l[id]);
  }

  lemma CacheHas(c: Cache, l: FreeObjects)
    requires CacheOk(c, l)
    ensures c.nobjs >= 1 && l.Keys == c.header.Keys && Listed(c)
  {
  }

  ghost predicate Before(c: Cache, addr: nat, n: nat, o: nat)
  {
    exists k: nat :: k < n && o == ObjAt(c, addr, k)
  }

  /** The first n bufctls have been set, and no others changed. */
  ghost predicate UpTo(c: Cache, ctl: map<nat, Ctl>, addr: nat, n: nat)
  {
    && (forall k: nat :: k < n ==> ObjAt(c, addr, k) in ctl && ctl[ObjAt(c, addr, k)] == Free(NextObj(c, addr, k)))
    && (forall o :: o in ctl <==> o in c.ctl || Before(c, addr, n, o))
    && (forall o :: o in c.ctl && !Before(c, addr, n, o) ==> ctl[o] == c.ctl[o])
  }

  lemma OneFurther(c: Cache, ctl: map<nat, Ctl>, addr: nat, n: nat)
    requires UpTo(c, ctl, addr, n)
    ensures UpTo(c, ctl[ObjAt(c, addr, n) := Free(NextObj(c, addr, n))], addr, n + 1)
  {
    hide ObjAt, NextObj;
    forall k: nat | k < n ensures ObjAt(c, addr, k) != ObjAt(c, addr, n) { Distinct(c, addr, k, n); }
    forall o ensures Before(c, addr, n + 1, o) <==> Before(c, addr, n, o) || o == ObjAt(c, addr, n) {
      if Before(c, addr, n, o) {
        var k: nat :| k < n && o == ObjAt(c, addr, k);
        assert k < n + 1 && o == ObjAt(c, addr, k);
      }
      if o == ObjAt(c, addr, n) { assert n < n + 1 && o == ObjAt(c, addr, n); }
    }
  }

  /** The loop that makes each bufctl free and point to the next object. */
  method Thread(c: Cache, addr: nat) returns (ctl: map<nat, Ctl>)
    requires c.nobjs >= 1
    ensures Threaded(c, ctl, addr) && (forall o :: o in ctl <==> o in c.ctl || IsObj(c, addr, o))
    ensures forall o :: o in c.ctl && !IsObj(c, addr, o) ==> ctl[o] == c.ctl[o]
  {
    hide ObjAt, UpTo, NextObj;
    ctl := c.ctl;
    var obj, ii: nat := addr, 0;
    FirstObj(c, addr);
    NoneSet(c, addr);
    while ii < c.nobjs - 1
      invariant ii <= c.nobjs - 1 && obj == ObjAt(c, addr, ii) && UpTo(c, ctl, addr, ii)
    {
      NextIs(c, addr, ii);
      OneFurther(c, ctl, addr, ii);
      ctl := ctl[obj := Free(obj + Stride(c.objsize))];
      obj := obj + Stride(c.objsize);
      ii := ii + 1;
    }
    LastIs(c, addr, ii);
    OneFurther(c, ctl, addr, ii);
    ctl := ctl[obj := Free(0)];
    AllSet(c, ctl, addr);
  }

  lemma NoneSet(c: Cache, addr: nat)
    ensures UpTo(c, c.ctl, addr, 0)
  {
  }

  lemma LastIs(c: Cache, addr: nat, i: nat)
    requires i + 1 == c.nobjs
    ensures NextObj(c, addr, i) == 0
  {
  }

  lemma AllSet(c: Cache, ctl: map<nat, Ctl>, addr: nat)
    requires UpTo(c, ctl, addr, c.nobjs)
    ensures Threaded(c, ctl, addr) && (forall o :: o in ctl <==> o in c.ctl || IsObj(c, addr, o))
    ensures forall o :: o in c.ctl && !IsObj(c, addr, o) ==> ctl[o] == c.ctl[o]
  {
    hide ObjAt, NextObj;
    forall o ensures Before(c, addr, c.nobjs, o) <==> IsObj(c, addr, o) { }
  }

  lemma FirstObj(c: Cache, addr: nat)
    ensures ObjAt(c, addr, 0) == addr
  {
  }

  lemma NextIs(c: Cache, addr: nat, i: nat)
    requires i + 1 < c.nobjs
    ensures ObjAt(c, addr, i + 1) == ObjAt(c, addr, i) + Stride(c.objsize)
    ensures NextObj(c, addr, i) == ObjAt(c, addr, i + 1)
  {
    var s := Stride(c.objsize);
    assert (i + 1) * s == i * s + s;
  }

  lemma NothingReclaimed(c: Cache)
    requires Listed(c)
    ensures Reclaimed(c, 0) == c && Empties(c, 0) == 0
  {
    assert Busy(c, c.slabs[..0]) + c.slabs[0..] == c.slabs;
  }

  lemma MoreEmpties(c: Cache, k: nat, pages: int)
    requires k < |c.slabs| && Listed(c)
    ensures c.slabs[k] in c.header
    ensures Empties(c, k + 1) * pages == Empties(c, k) * pages + (if c.header[c.slabs[k]].inuse == 0 then pages else 0)
  {
    assert c.slabs[k] in c.slabs;
    if c.header[c.slabs[k]].inuse == 0 { assert (Empties(c, k) + 1) * pages == Empties(c, k) * pages + pages; }
  }

  lemma NextGone(c: Cache, k: nat)
    requires Listed(c) && k < |c.slabs|
    ensures c.slabs[k] in c.header && c.slabs[k] !in Gone(c, k) && Gone(c, k) <= c.header.Keys
    ensures Gone(c, k + 1) == Gone(c, k) + (if c.header[c.slabs[k]].inuse == 0 then {c.slabs[k]} else {})
  {
    assert c.slabs[k] in c.slabs;
    assert c.slabs[..k + 1] == c.slabs[..k] + [c.slabs[k]];
  }

  lemma NextSlabs(c: Cache, k: nat)
    requires Listed(c) && k < |c.slabs|
    ensures c.slabs[k] in c.header
    ensures Reclaimed(c, k + 1).slabs
         == if c.header[c.slabs[k]].inuse == 0 then Without(Reclaimed(c, k).slabs, c.slabs[k])
            else Reclaimed(c, k).slabs
  {
    hide Without, Busy, InGone, Gone;
    assert c.slabs[k] in c.slabs;
    var s, front, back := c.slabs[k], Busy(c, c.slabs[..k]), c.slabs[k + 1..];
    BusyNext(c, k);
    assert c.slabs[k..] == [s] + back;
    BusyFrom(c, c.slabs[..k]);
    assert s !in c.slabs[..k];
    WithoutMiddle(front, s, back);
    assert front + [s] + back == front + ([s] + back);
    assert front + [] + back == front + back;
  }

  lemma BusyNext(c: Cache, k: nat)
    requires Listed(c) && k < |c.slabs| && c.slabs[k] in c.header
    ensures Busy(c, c.slabs[..k + 1])
         == Busy(c, c.slabs[..k]) + if c.header[c.slabs[k]].inuse == 0 then [] else [c.slabs[k]]
  {
    assert c.slabs[..k + 1][..k] == c.slabs[..k];
  }

  lemma NextReclaimed(c: Cache, k: nat)
    requires Listed(c) && k < |c.slabs|
    ensures c.slabs[k] in c.header && c.slabs[k] in Reclaimed(c, k).header
    ensures Reclaimed(c, k).header[c.slabs[k]] == c.header[c.slabs[k]] && Reclaimed(c, k).order == c.order
    ensures Reclaimed(c, k + 1)
         == if c.header[c.slabs[k]].inuse == 0 then Dropped(Reclaimed(c, k), c.slabs[k]) else Reclaimed(c, k)
  {
    hide Listed, Gone, Busy, NoDup;
    NextGone(c, k);
    NextSlabs(c, k);
    var s, c1, c2 := c.slabs[k], Reclaimed(c, k), Reclaimed(c, k + 1);
    if c.header[s].inuse == 0 {
      forall o ensures InGone(c, k + 1, o) <==> InGone(c, k, o) || c.header[s].addr <= o < s {
        if InGone(c, k, o) {
          var id :| id in Gone(c, k) && c.header[id].addr <= o < id;
          assert id in Gone(c, k + 1);
        }
        if c.header[s].addr <= o < s { assert s in Gone(c, k + 1); }
      }
      assert c2.ctl == Dropped(c1, s).ctl;
      assert c2.header == Dropped(c1, s).header;
    } else {
      forall o ensures InGone(c, k + 1, o) <==> InGone(c, k, o) { }
      assert c2.ctl == c1.ctl;
    }
  }

  lemma {:induction false} BusyFrom(c: Cache, ids: seq<nat>)
    requires forall id :: id in ids ==> id in c.header
    ensures forall id :: id in Busy(c, ids) <==> id in ids && c.header[id].inuse != 0
  {
    if ids != [] {
      BusyFrom(c, ids[..|ids| - 1]);
      assert ids == ids[..|ids| - 1] + [ids[|ids| - 1]];
    }
  }

  lemma {:induction false} WithoutMiddle(front: seq<nat>, x: nat, back: seq<nat>)
    requires x !in front
    ensures Without(front + ([x] + back), x) == front + back
  {
    if front == [] {
      assert [] + ([x] + back) == [x] + back && ([x] + back)[1..] == back && [] + back == back;
    } else {
      assert (front + ([x] + back))[1..] == front[1..] + ([x] + back);
      WithoutMiddle(front[1..], x, back);
      assert [front[0]] + (front[1..] + back) == front + back;
    }
  }

  lemma {:induction false} Covers(a: seq<nat>, b: seq<nat>)
    requires NoDup(a) && NoDup(b) && (forall x :: x in a ==> x in b)
    ensures |a| <= |b| && (|a| == |b| ==> forall x :: x in b ==> x in a)
  {
    if a != [] {
      var x, rest := a[0], a[1..];
      assert a == [x] + rest && x !in rest;
      Covers(rest, Without(b, x));
    }
  }

  lemma AllObjects(c: Cache, addr: nat)
    ensures NoDup(ObjsFrom(c, addr, 0)) && forall o :: o in ObjsFrom(c, addr, 0) <==> IsObj(c, addr, o)
  {
    hide ObjAt;
    ObjsFromAre(c, addr, 0);
    forall o ensures o in ObjsFrom(c, addr, 0) <==> IsObj(c, addr, o) {
      if IsObj(c, addr, o) {
        var i: nat :| i < c.nobjs && o == ObjAt(c, addr, i);
        assert 0 <= i < c.nobjs && o == ObjAt(c, addr, i);
      }
    }
  }

  lemma EmptySlab(c: Cache, id: nat, list: seq<nat>)
    requires SlabOk(c, id, list)
    ensures c.header[id].inuse == 0 <==> forall o :: IsObj(c, c.header[id].addr, o) && o in c.ctl ==> c.ctl[o].Free?
  {
    hide ObjAt, Chain, IsObj, ObjsFrom;
    var addr, objs := c.header[id].addr, ObjsFrom(c, c.header[id].addr, 0);
    AllObjects(c, addr);
    Covers(list, objs);
    if forall o :: IsObj(c, addr, o) && o in c.ctl ==> c.ctl[o].Free? {
      Covers(objs, list);
    }
  }

  /** A slab counts no object in use exactly if it has none. */
  lemma EmptyMeansUnused(c: Cache, l: FreeObjects, id: nat)
    requires CacheOk(c, l) && id in c.header
    ensures c.header[id].inuse == 0 <==> forall o :: IsObj(c, c.header[id].addr, o) && o in c.ctl ==> c.ctl[o].Free?
  {
    hide CacheOk, SlabOk, IsObj;
    SlabIn(c, l, id);
    EmptySlab(c, id, l[id]);
  }

  /** Reclaiming takes no object in use away, and of the slabs looked at it leaves exactly those that have one. */
  lemma ReclaimKeepsLive(c: Cache, l: FreeObjects, k: nat)
    requires CacheOk(c, l) && k <= |c.slabs|
    ensures Listed(c) && forall o :: InUse(c, o) ==> o in Reclaimed(c, k).ctl && Reclaimed(c, k).ctl[o] == c.ctl[o]
    ensures forall id :: id in c.slabs[..k] ==>
              (id in Reclaimed(c, k).header <==> exists o :: InUse(c, o) && IsObj(c, c.header[id].addr, o))
  {
    hide CacheOk, IsObj;
    CacheHas(c, l);
    forall o | InUse(c, o) ensures !InGone(c, k, o) {
      forall id | id in Gone(c, k) ensures !(c.header[id].addr <= o < id) {
        EmptyMeansUnused(c, l, id);
        InThatSlab(c, l, id, o);
      }
    }
    forall id | id in c.slabs[..k]
      ensures id in Reclaimed(c, k).header <==> exists o :: InUse(c, o) && IsObj(c, c.header[id].addr, o)
    {
      assert id in c.slabs;
      EmptyMeansUnused(c, l, id);
      if c.header[id].inuse != 0 {
        var o :| IsObj(c, c.header[id].addr, o) && o in c.ctl && !c.ctl[o].Free?;
        assert InUse(c, o);
      }
    }
  }
}
