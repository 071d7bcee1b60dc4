/**
 The slab allocator's data (kernel/mm/slab.c): how large a slab is, where its objects
 lie, and what ties the lists of free objects to the objects in use. Sizes are those
 of a kernel with red zones and checked frees: a bufctl takes 8 bytes, a slab header 16.
 */
module Slab {
  import opened Arith
  import Blocks
  import opened Lists

  const PAGE_SIZE: nat := 4096
  const SLAB_MAX_ORDER: nat := 5
  const CTL: nat := 8
  const HEADER: nat := 16
  const REDZONE: nat := 4

  // Sizes

  function BlockSize(order: nat): int { PAGE_SIZE * Pow2(order) }

  function Stride(objsize: nat): nat { objsize + CTL }

  /** _slab_size. */
  function SlabSize(objsize: nat, nobjs: nat): nat { nobjs * Stride(objsize) + HEADER }

  /** _slab_nobjs. */
  function SlabNobjs(objsize: nat, order: nat): int { (BlockSize(order) - HEADER) / Stride(objsize) }

  /** _slab_waste. */
  function SlabWaste(objsize: nat, order: nat): int
    requires SlabNobjs(objsize, order) >= 0
  {
    BlockSize(order) - SlabSize(objsize, SlabNobjs(objsize, order))
  }

  lemma BlockAtLeastPage(order: nat)
    ensures BlockSize(order) >= PAGE_SIZE
  {
    Pow2Positive(order);
    MulMono(1, Pow2(order), PAGE_SIZE);
  }

  /** As many objects as fit in the block, and no more would. */
  lemma NobjsFit(objsize: nat, order: nat)
    ensures SlabNobjs(objsize, order) >= 0
    ensures SlabSize(objsize, SlabNobjs(objsize, order)) <= BlockSize(order)
    ensures BlockSize(order) < SlabSize(objsize, SlabNobjs(objsize, order) + 1)
    ensures SlabSize(objsize, 1) <= BlockSize(order) ==> SlabNobjs(objsize, order) >= 1
  {
    BlockAtLeastPage(order);
    var room, stride := BlockSize(order) - HEADER, Stride(objsize);
    var n := room / stride;
    assert room == n * stride + room % stride && 0 <= room % stride < stride;
    assert (n + 1) * stride == n * stride + stride;
    assert n < 0 ==> n * stride <= -stride;
    assert n == 0 ==> n * stride == 0;
  }

  datatype Sizing = Sizing(order: nat, nobjs: nat) | TooLarge | DivideError

  /** The orders that are tried: the smallest one that fits an object, and the larger ones below a limit. */
  ghost predicate Candidate(min: nat, order: nat) { order == min || min < order < SLAB_MAX_ORDER }

  ghost predicate Smallest(objsize: nat, min: nat)
  {
    SlabSize(objsize, 1) <= BlockSize(min) && forall k :: 0 <= k < min ==> BlockSize(k) < SlabSize(objsize, 1)
  }

  ghost predicate LeastWaste(objsize: nat, min: nat, order: nat)
  {
    && SlabNobjs(objsize, order) >= 0
    && forall k: nat :: Candidate(min, k) ==>
         SlabNobjs(objsize, k) >= 0 && SlabWaste(objsize, order) <= SlabWaste(objsize, k)
  }

  // The same in 32-bit arithmetic: a size_t wraps around, and an int is signed

  const WORD: int := 0x1_0000_0000

  function Wrapped(x: int): nat { x % WORD }

  function Signed(x: nat): int { if x < WORD / 2 then x else x - WORD }

  function Stride32(objsize: nat): nat { Wrapped(objsize + CTL) }

  function SlabSize32(objsize: nat, nobjs: int): nat { Wrapped(nobjs * Stride32(objsize) + HEADER) }

  function SlabNobjs32(objsize: nat, order: nat): int
    requires Stride32(objsize) != 0
  {
    (BlockSize(order) - HEADER) / Stride32(objsize)
  }

  function SlabWaste32(objsize: nat, order: nat): int
    requires Stride32(objsize) != 0
  {
    Signed(Wrapped(BlockSize(order) - SlabSize32(objsize, SlabNobjs32(objsize, order))))
  }

  lemma BlockSizes(order: nat)
    requires order < Blocks.NSIZES
    ensures HEADER < BlockSize(order) < WORD / 2
  {
    var p := Pow2(order);
    assert Pow2(7) == 128 && Pow2(6) == 64 && Pow2(5) == 32 && Pow2(4) == 16;
    assert 1 <= p <= 128;
  }

  lemma NobjsNatural(objsize: nat, order: nat)
    requires order < Blocks.NSIZES && Stride32(objsize) != 0
    ensures SlabNobjs32(objsize, order) >= 0
  {
    hide BlockSize;
    BlockSizes(order);
  }

  lemma SameStride(objsize: nat)
    requires SlabSize(objsize, 1) < WORD / 2
    ensures Stride32(objsize) == Stride(objsize) > 0 && Signed(SlabSize32(objsize, 1)) == SlabSize(objsize, 1)
  {
  }

  lemma SameSize(objsize: nat, n: nat)
    requires Stride32(objsize) == Stride(objsize) && SlabSize(objsize, n) < WORD
    ensures SlabSize32(objsize, n) == SlabSize(objsize, n)
  {
    hide Stride, Stride32;
  }

  /** Nothing wraps around for an object that leaves its slab's size in the range of an int. */
  lemma NothingWraps(objsize: nat, order: nat)
    requires SlabSize(objsize, 1) < WORD / 2 && order < Blocks.NSIZES
    ensures Stride32(objsize) == Stride(objsize) > 0 && Signed(SlabSize32(objsize, 1)) == SlabSize(objsize, 1)
    ensures SlabNobjs32(objsize, order) == SlabNobjs(objsize, order) >= 0
    ensures SlabWaste32(objsize, order) == SlabWaste(objsize, order)
  {
    hide BlockSize, SlabSize, SlabSize32, Stride, Stride32, Signed;
    SameStride(objsize);
    BlockSizes(order);
    NobjsFit(objsize, order);
    SameSize(objsize, SlabNobjs(objsize, order));
    WasteIs(BlockSize(order) - SlabSize(objsize, SlabNobjs(objsize, order)));
  }

  lemma WasteIs(x: nat)
    requires x < WORD / 2
    ensures Signed(Wrapped(x)) == x
  {
  }

  /** For larger ones the size of a slab with one object is taken to be no more than a page. */
  lemma TakenForSmall(objsize: nat)
    requires objsize < WORD && SlabSize(objsize, 1) >= WORD / 2
    ensures Signed(SlabSize32(objsize, 1)) < PAGE_SIZE
  {
  }

  /**
   r is the right answer: an order that wastes least of those tried, or that no block is large enough for an object.
   */
  ghost predicate RightSizing(objsize: nat, r: Sizing)
  {
    && r != DivideError
    && (r == TooLarge <==> forall k :: 0 <= k < Blocks.NSIZES ==> BlockSize(k) < SlabSize(objsize, 1))
    && (r.Sizing? ==> r.nobjs == SlabNobjs(objsize, r.order) && r.nobjs >= 1)
    && (r.Sizing? ==>
          exists min: nat :: Smallest(objsize, min) && Candidate(min, r.order) && LeastWaste(objsize, min, r.order))
  }

  lemma SizingRight(objsize: nat, min: nat, best: nat)
    requires SlabSize(objsize, 1) < WORD / 2 && Smallest(objsize, min) && Candidate(min, best) && min < Blocks.NSIZES
    requires best < Blocks.NSIZES && Stride32(objsize) != 0
    requires forall k: nat :: Candidate(min, k) && k < Blocks.NSIZES ==>
              SlabWaste32(objsize, best) <= SlabWaste32(objsize, k)
    requires SlabNobjs32(objsize, best) >= 0
    ensures RightSizing(objsize, Sizing(best, SlabNobjs32(objsize, best)))
  {
    hide BlockSize, SlabSize, SlabNobjs, SlabWaste, SlabNobjs32, SlabWaste32, Stride32;
    forall k: nat | Candidate(min, k)
      ensures SlabNobjs(objsize, k) >= 0 && SlabNobjs(objsize, best) >= 0
      ensures SlabWaste(objsize, best) <= SlabWaste(objsize, k)
    {
      NothingWraps(objsize, k);
      NothingWraps(objsize, best);
    }
    NothingWraps(objsize, best);
    LargerFits(objsize, min, best);
    NobjsFit(objsize, best);
    assert LeastWaste(objsize, min, best);
  }

  /**
   _calc_slab_size: of the orders tried, one that wastes least; it panics if no block is
   large enough for an object. That holds exactly for objects whose slab's size is in the
   range of an int; for larger ones there is no panic.
   */
  method CalcSlabSize(objsize: nat) returns (r: Sizing)
    requires objsize < WORD
    ensures RightSizing(objsize, r) <==> SlabSize(objsize, 1) < WORD / 2
    ensures SlabSize(objsize, 1) >= WORD / 2 ==> r != TooLarge
  {
    hide BlockSize, SlabSize, SlabNobjs, SlabWaste, SlabNobjs32, SlabWaste32, SlabSize32, Stride32, RightSizing, Signed;
    ghost var small := SlabSize(objsize, 1) < WORD / 2;
    if small { NothingWraps(objsize, 0); } else { Misjudged(objsize); TakenForSmall(objsize); BlockAtLeastPage(0); }
    var minsize := Signed(SlabSize32(objsize, 1));
    var minorder: nat := 0;
    while minorder < Blocks.NSIZES && BlockSize(minorder) < minsize
      invariant minorder <= Blocks.NSIZES && forall k :: 0 <= k < minorder ==> BlockSize(k) < minsize
    {
      minorder := minorder + 1;
    }
    if minorder == Blocks.NSIZES {
      if small { PanicRight(objsize); }
      return TooLarge;
    }
    if Stride32(objsize) == 0 {
      return DivideError;
    }
    var best, bestWaste := minorder, SlabWaste32(objsize, minorder);
    var order := minorder + 1;
    while order < SLAB_MAX_ORDER
      invariant minorder < order && Candidate(minorder, best) && bestWaste == SlabWaste32(objsize, best)
      invariant best < Blocks.NSIZES
      invariant forall k: nat :: Candidate(minorder, k) && k < order ==> bestWaste <= SlabWaste32(objsize, k)
      invariant order <= SLAB_MAX_ORDER || order == minorder + 1
    {
      var waste := SlabWaste32(objsize, order);
      if waste < bestWaste {
        best, bestWaste := order, waste;
      }
      order := order + 1;
    }
    NobjsNatural(objsize, best);
    if small { SizingRight(objsize, minorder, best); }
    return Sizing(best, SlabNobjs32(objsize, best));
  }

  lemma PanicRight(objsize: nat)
    requires forall k :: 0 <= k < Blocks.NSIZES ==> BlockSize(k) < SlabSize(objsize, 1)
    ensures RightSizing(objsize, TooLarge)
  {
  }

  /** No block is large enough for such an object. */
  lemma Misjudged(objsize: nat)
    requires SlabSize(objsize, 1) >= WORD / 2
    ensures forall r :: RightSizing(objsize, r) ==> r == TooLarge
  {
    hide BlockSize, SlabSize;
    forall k: nat | k < Blocks.NSIZES ensures BlockSize(k) < SlabSize(objsize, 1) { BlockSizes(k); }
  }

  lemma LargerFits(objsize: nat, min: nat, order: nat)
    requires SlabSize(objsize, 1) <= BlockSize(min) && min <= order
    ensures SlabSize(objsize, 1) <= BlockSize(order)
    decreases order - min
  {
    if min < order {
      Pow2Positive(min);
      LargerFits(objsize, min + 1, order);
    }
  }

  // Slabs and their objects

  /** A bufctl: free, with the next free object (0 is null), or in use, with the slab. */
  datatype Ctl = Free(next: nat) | Used(slab: nat)

  datatype Header = Header(addr: nat, inuse: int, free: nat)

  /** slabs: the headers' addresses in the order of the list. */
  datatype Cache =
    Cache(objsize: nat, order: nat, nobjs: nat, slabs: seq<nat>, header: map<nat, Header>, ctl: map<nat, Ctl>)

  function ObjAt(c: Cache, addr: nat, i: nat): nat { addr + i * Stride(c.objsize) }

  ghost predicate IsObj(c: Cache, addr: nat, o: nat)
  {
    exists i: nat :: i < c.nobjs && o == ObjAt(c, addr, i)
  }

  /** The objects follow one another with their bufctls, the header follows them, and all are in the block. */
  lemma Layout(c: Cache, addr: nat, i: nat, j: nat)
    requires i < j <= c.nobjs && SlabSize(c.objsize, c.nobjs) <= BlockSize(c.order)
    ensures ObjAt(c, addr, i) + Stride(c.objsize) <= ObjAt(c, addr, j) <= ObjAt(c, addr, c.nobjs)
    ensures ObjAt(c, addr, c.nobjs) + HEADER <= addr + BlockSize(c.order) && addr <= ObjAt(c, addr, i)
  {
    var s := Stride(c.objsize);
    MulMono(i + 1, j, s);
    MulMono(j, c.nobjs, s);
    MulMono(0, i, s);
  }

  /** Following the free list visits exactly these objects. */
  ghost predicate Chain(ctl: map<nat, Ctl>, head: nat, list: seq<nat>)
    decreases |list|
  {
    if list == [] then head == 0
    else head == list[0] && head != 0 && head in ctl && ctl[head].Free? && Chain(ctl, ctl[head].next, list[1..])
  }

  lemma {:induction false} ChainKept(ctl: map<nat, Ctl>, ctl': map<nat, Ctl>, head: nat, list: seq<nat>)
    requires Chain(ctl, head, list) && forall o :: o in list && o in ctl ==> o in ctl' && ctl'[o] == ctl[o]
    ensures Chain(ctl', head, list)
    decreases |list|
  {
    if list != [] { ChainKept(ctl, ctl', ctl[head].next, list[1..]); }
  }

  /** The slab's free list holds its objects that are not in use, each once; the others know their slab. */
  ghost predicate SlabOk(c: Cache, id: nat, list: seq<nat>)
  {
    && id in c.header && id == ObjAt(c, c.header[id].addr, c.nobjs) && c.header[id].addr > 0
    && NoDup(list) && |list| + c.header[id].inuse == c.nobjs
    && Chain(c.ctl, c.header[id].free, list)
    && (forall o :: o in list ==> IsObj(c, c.header[id].addr, o))
    && (forall o :: IsObj(c, c.header[id].addr, o) ==> o in c.ctl && (o in list || c.ctl[o] == Used(id)))
    && (forall o :: o in list ==> o in c.ctl && c.ctl[o].Free?)
  }

  /** The blocks of two slabs do not overlap. */
  predicate Apart(a: nat, asize: int, b: nat, bsize: int) { a + asize <= b || b + bsize <= a }

  ghost predicate CacheOk(c: Cache, lists: map<nat, seq<nat>>)
  {
    && c.nobjs >= 1 && SlabSize(c.objsize, c.nobjs) <= BlockSize(c.order)
    && NoDup(c.slabs) && (forall id :: id in c.slabs <==> id in c.header) && lists.Keys == c.header.Keys
    && (forall id :: id in c.header ==> SlabOk(c, id, lists[id]))
    && (forall a, b :: a in c.header && b in c.header && a != b ==>
          Apart(c.header[a].addr, BlockSize(c.order), c.header[b].addr, BlockSize(c.order)))
    && (forall o :: o in c.ctl ==> exists id :: id in c.header && IsObj(c, c.header[id].addr, o))
  }

  lemma ObjInBlock(c: Cache, addr: nat, o: nat)
    requires SlabSize(c.objsize, c.nobjs) <= BlockSize(c.order) && IsObj(c, addr, o)
    ensures addr <= o && o + Stride(c.objsize) <= ObjAt(c, addr, c.nobjs)
    ensures ObjAt(c, addr, c.nobjs) + HEADER <= addr + BlockSize(c.order)
  {
    var i: nat :| i < c.nobjs && o == ObjAt(c, addr, i);
    Layout(c, addr, i, c.nobjs);
  }

  /** Objects of one slab: the same, or apart, bufctls included. */
  lemma ObjectsApart(c: Cache, addr: nat, o: nat, p: nat)
    requires SlabSize(c.objsize, c.nobjs) <= BlockSize(c.order) && IsObj(c, addr, o) && IsObj(c, addr, p) && o != p
    ensures Apart(o, Stride(c.objsize), p, Stride(c.objsize))
  {
    var i: nat :| i < c.nobjs && o == ObjAt(c, addr, i);
    var j: nat :| j < c.nobjs && p == ObjAt(c, addr, j);
    if i < j { Layout(c, addr, i, j); } else if j < i { Layout(c, addr, j, i); }
  }

  /** An object belongs to one slab. */
  lemma OneSlab(c: Cache, lists: map<nat, seq<nat>>, a: nat, b: nat, o: nat)
    requires CacheOk(c, lists) && a in c.header && b in c.header && IsObj(c, c.header[a].addr, o)
    requires IsObj(c, c.header[b].addr, o)
    ensures a == b
  {
    hide SlabOk, IsObj, NoDup;
    ObjInBlock(c, c.header[a].addr, o);
    ObjInBlock(c, c.header[b].addr, o);
  }

  /** No two objects of a cache overlap, in use or not, nor does one overlap a bufctl or a slab's header. */
  lemma LiveObjectsApart(c: Cache, lists: map<nat, seq<nat>>, o: nat, p: nat)
    requires CacheOk(c, lists) && o in c.ctl && p in c.ctl && o != p
    ensures Apart(o, Stride(c.objsize), p, Stride(c.objsize))
    ensures forall id :: id in c.header ==> Apart(o, Stride(c.objsize), id, HEADER)
  {
    hide SlabOk, IsObj, NoDup, ObjAt, SlabSize, BlockSize;
    var a :| a in c.header && IsObj(c, c.header[a].addr, o);
    var b :| b in c.header && IsObj(c, c.header[b].addr, p);
    ObjInBlock(c, c.header[a].addr, o);
    ObjInBlock(c, c.header[b].addr, p);
    if a == b { ObjectsApart(c, c.header[a].addr, o, p); }
    forall id | id in c.header ensures Apart(o, Stride(c.objsize), id, HEADER) {
      HeaderInBlock(c, lists, id);
    }
  }

  lemma HeaderInBlock(c: Cache, lists: map<nat, seq<nat>>, id: nat)
    requires CacheOk(c, lists) && id in c.header
    ensures id == ObjAt(c, c.header[id].addr, c.nobjs) && c.header[id].addr <= id
    ensures id + HEADER <= c.header[id].addr + BlockSize(c.order)
  {
    assert SlabOk(c, id, lists[id]);
    Layout(c, c.header[id].addr, 0, c.nobjs);
  }

  // Taking an object from a slab and giving it back

  /** The parts of a slab that other slabs' operations leave alone. */
  lemma SlabKept(c: Cache, c': Cache, id: nat, list: seq<nat>)
    requires SlabOk(c, id, list) && c'.objsize == c.objsize && c'.nobjs == c.nobjs && id in c'.header
    requires c'.header[id] == c.header[id]
    requires forall o :: IsObj(c, c.header[id].addr, o) && o in c.ctl ==> o in c'.ctl && c'.ctl[o] == c.ctl[o]
    ensures SlabOk(c', id, list)
  {
    forall o
      ensures IsObj(c', c.header[id].addr, o) <==> IsObj(c, c.header[id].addr, o)
    {
      SameObj(c, c', c.header[id].addr, o);
    }
    ChainKept(c.ctl, c'.ctl, c.header[id].free, list);
  }

  lemma SameObj(c: Cache, c': Cache, addr: nat, o: nat)
    requires c'.objsize == c.objsize && c'.nobjs == c.nobjs
    ensures IsObj(c', addr, o) <==> IsObj(c, addr, o)
  {
    if IsObj(c, addr, o) {
      var i: nat :| i < c.nobjs && o == ObjAt(c, addr, i);
      assert o == ObjAt(c', addr, i);
    }
    if IsObj(c', addr, o) {
      var i: nat :| i < c'.nobjs && o == ObjAt(c', addr, i);
      assert o == ObjAt(c, addr, i);
    }
  }

  function Taken(c: Cache, id: nat): Cache
    requires id in c.header && c.header[id].free in c.ctl && c.ctl[c.header[id].free].Free?
  {
    var h := c.header[id];
    c.(header := c.header[id := Header(h.addr, h.inuse + 1, c.ctl[h.free].next)], ctl := c.ctl[h.free := Used(id)])
  }

  function Given(c: Cache, o: nat): Cache
    requires o in c.ctl && c.ctl[o].Used? && c.ctl[o].slab in c.header
  {
    var id := c.ctl[o].slab;
    var h := c.header[id];
    c.(header := c.header[id := Header(h.addr, h.inuse - 1, o)], ctl := c.ctl[o := Free(h.free)])
  }

  /** A change to slab id alone. */
  lemma OneSlabChanged(c: Cache, c': Cache, lists: map<nat, seq<nat>>, id: nat, list: seq<nat>)
    requires CacheOk(c, lists) && id in c.header && c'.objsize == c.objsize && c'.nobjs == c.nobjs
    requires c'.order == c.order && c'.slabs == c.slabs
    requires id in c'.header && c'.header == c.header[id := c'.header[id]] && c'.header[id].addr == c.header[id].addr
    requires c'.ctl.Keys == c.ctl.Keys
    requires forall o :: o in c.ctl && !IsObj(c, c.header[id].addr, o) ==> c'.ctl[o] == c.ctl[o]
    requires SlabOk(c', id, list)
    ensures CacheOk(c', lists[id := list])
  {
    hide IsObj, NoDup, ObjAt, SlabSize, BlockSize, Chain, SlabOk;
    forall x | x in c'.header && x != id ensures SlabOk(c', x, lists[x]) {
      forall o | IsObj(c, c.header[x].addr, o) && o in c.ctl ensures c'.ctl[o] == c.ctl[o] {
        if IsObj(c, c.header[id].addr, o) { OneSlab(c, lists, x, id, o); }
      }
      SlabKept(c, c', x, lists[x]);
    }
    forall o | o in c'.ctl ensures exists x :: x in c'.header && IsObj(c', c'.header[x].addr, o) {
      var x :| x in c.header && IsObj(c, c.header[x].addr, o);
      SameObj(c, c', c.header[x].addr, o);
      assert x in c'.header && IsObj(c', c'.header[x].addr, o);
    }
  }

  lemma SlabIn(c: Cache, lists: map<nat, seq<nat>>, id: nat)
    requires CacheOk(c, lists) && id in c.header
    ensures id in lists && SlabOk(c, id, lists[id])
  {
  }

  /** A slab that is not full has a free object. */
  lemma FirstFree(c: Cache, id: nat, list: seq<nat>)
    requires SlabOk(c, id, list) && c.header[id].inuse < c.nobjs
    ensures list != [] && c.header[id].free == list[0] && list[0] > 0 && list[0] in c.ctl && c.ctl[list[0]].Free?
    ensures IsObj(c, c.header[id].addr, list[0])
  {
    hide IsObj;
    assert list[0] in list;
  }

  lemma TakenSlab(c: Cache, id: nat, list: seq<nat>)
    requires SlabOk(c, id, list) && list != [] && c.header[id].free == list[0] && list[0] in c.ctl
    requires c.ctl[list[0]].Free?
    ensures SlabOk(Taken(c, id), id, list[1..])
  {
    hide IsObj, ObjAt;
    var o, c' := list[0], Taken(c, id);
    assert list == [o] + list[1..] && o !in list[1..];
    forall p
      ensures IsObj(c', c.header[id].addr, p) <==> IsObj(c, c.header[id].addr, p)
    {
      SameObj(c, c', c.header[id].addr, p);
    }
    ChainKept(c.ctl, c'.ctl, c.ctl[o].next, list[1..]);
    SameEnd(c, c', c.header[id].addr);
  }

  /** slab_obj_alloc, once a slab with a free object is found. */
  lemma TakenOk(c: Cache, lists: map<nat, seq<nat>>, id: nat)
    requires CacheOk(c, lists) && id in c.header && c.header[id].inuse < c.nobjs
    ensures id in lists && lists[id] != [] && c.header[id].free == lists[id][0] > 0 && c.header[id].free in c.ctl
    ensures c.ctl[c.header[id].free].Free?
    ensures IsObj(c, c.header[id].addr, c.header[id].free) && CacheOk(Taken(c, id), lists[id := lists[id][1..]])
  {
    hide CacheOk, SlabOk, IsObj;
    SlabIn(c, lists, id);
    FirstFree(c, id, lists[id]);
    TakenSlab(c, id, lists[id]);
    OneSlabChanged(c, Taken(c, id), lists, id, lists[id][1..]);
  }

  lemma SameEnd(c: Cache, c': Cache, addr: nat)
    requires c'.objsize == c.objsize && c'.nobjs == c.nobjs
    ensures ObjAt(c', addr, c'.nobjs) == ObjAt(c, addr, c.nobjs)
  {
  }

  /** An object in use belongs to the slab its bufctl names. */
  lemma OwnerIs(c: Cache, lists: map<nat, seq<nat>>, o: nat)
    requires CacheOk(c, lists) && o in c.ctl && c.ctl[o].Used?
    ensures c.ctl[o].slab in c.header && IsObj(c, c.header[c.ctl[o].slab].addr, o) && o !in lists[c.ctl[o].slab]
  {
    hide IsObj, NoDup, Chain;
    var id :| id in c.header && IsObj(c, c.header[id].addr, o);
    assert SlabOk(c, id, lists[id]);
  }

  lemma GivenSlab(c: Cache, id: nat, list: seq<nat>, o: nat)
    requires SlabOk(c, id, list) && o in c.ctl && c.ctl[o] == Used(id) && o > 0 && IsObj(c, c.header[id].addr, o)
    requires o !in list
    ensures SlabOk(Given(c, o), id, [o] + list)
  {
    hide IsObj, ObjAt;
    var c' := Given(c, o);
    forall p
      ensures IsObj(c', c.header[id].addr, p) <==> IsObj(c, c.header[id].addr, p)
    {
      SameObj(c, c', c.header[id].addr, p);
    }
    ChainKept(c.ctl, c'.ctl, c.header[id].free, list);
    assert ([o] + list)[1..] == list;
    SameEnd(c, c', c.header[id].addr);
  }

  /** slab_obj_free. */
  lemma GivenOk(c: Cache, lists: map<nat, seq<nat>>, o: nat)
    requires CacheOk(c, lists) && o in c.ctl && c.ctl[o].Used? && o > 0
    ensures c.ctl[o].slab in c.header && c.ctl[o].slab in lists
    ensures CacheOk(Given(c, o), lists[c.ctl[o].slab := [o] + lists[c.ctl[o].slab]])
  {
    hide CacheOk, SlabOk, IsObj;
    OwnerIs(c, lists, o);
    var id := c.ctl[o].slab;
    SlabIn(c, lists, id);
    GivenSlab(c, id, lists[id], o);
    OneSlabChanged(c, Given(c, o), lists, id, [o] + lists[id]);
  }

  // A new slab

  /** The objects from the i-th on. */
  function ObjsFrom(c: Cache, addr: nat, i: nat): (r: seq<nat>)
    ensures |r| == if i < c.nobjs then c.nobjs - i else 0
    decreases c.nobjs - i
  {
    if i < c.nobjs then [ObjAt(c, addr, i)] + ObjsFrom(c, addr, i + 1) else []
  }

  lemma {:induction false} ObjsFromAre(c: Cache, addr: nat, i: nat)
    requires i <= c.nobjs
    ensures forall o :: o in ObjsFrom(c, addr, i) <==> exists j: nat :: i <= j < c.nobjs && o == ObjAt(c, addr, j)
    ensures NoDup(ObjsFrom(c, addr, i))
    decreases c.nobjs - i
  {
    if i < c.nobjs {
      ObjsFromAre(c, addr, i + 1);
      var rest := ObjsFrom(c, addr, i + 1);
      forall j: nat | i + 1 <= j < c.nobjs ensures ObjAt(c, addr, j) != ObjAt(c, addr, i) { Distinct(c, addr, i, j); }
      assert ObjAt(c, addr, i) !in rest;
      forall o ensures o in ObjsFrom(c, addr, i) <==> exists j: nat :: i <= j < c.nobjs && o == ObjAt(c, addr, j) {
        assert o in ObjsFrom(c, addr, i) <==> o == ObjAt(c, addr, i) || o in rest;
      }
    }
  }

  lemma Distinct(c: Cache, addr: nat, i: nat, j: nat)
    requires i < j
    ensures ObjAt(c, addr, i) < ObjAt(c, addr, j)
  {
    MulMono(i + 1, j, Stride(c.objsize));
  }

  function NextObj(c: Cache, addr: nat, i: nat): nat { if i + 1 < c.nobjs then ObjAt(c, addr, i + 1) else 0 }

  /** Each object's bufctl leads to the next object, the last one's to none. */
  ghost predicate Threaded(c: Cache, ctl: map<nat, Ctl>, addr: nat)
  {
    forall i: nat :: i < c.nobjs ==> ObjAt(c, addr, i) in ctl && ctl[ObjAt(c, addr, i)] == Free(NextObj(c, addr, i))
  }

  lemma {:induction false} ThreadedChain(c: Cache, ctl: map<nat, Ctl>, addr: nat, i: nat)
    requires Threaded(c, ctl, addr) && i < c.nobjs && addr > 0
    ensures Chain(ctl, ObjAt(c, addr, i), ObjsFrom(c, addr, i))
    decreases c.nobjs - i
  {
    var list := ObjsFrom(c, addr, i);
    assert list[1..] == ObjsFrom(c, addr, i + 1);
    if i + 1 < c.nobjs { ThreadedChain(c, ctl, addr, i + 1); }
  }

  function Grown(c: Cache, addr: nat, ctl: map<nat, Ctl>): Cache
  {
    var id := ObjAt(c, addr, c.nobjs);
    c.(slabs := [id] + c.slabs, header := c.header[id := Header(addr, 0, addr)], ctl := ctl)
  }

  /** _slab_allocator_grow. */
  lemma GrownOk(c: Cache, lists: map<nat, seq<nat>>, addr: nat, ctl: map<nat, Ctl>)
    requires CacheOk(c, lists) && addr > 0
    requires forall id :: id in c.header ==> Apart(addr, BlockSize(c.order), c.header[id].addr, BlockSize(c.order))
    requires Threaded(c, ctl, addr) && (forall o :: o in ctl <==> o in c.ctl || IsObj(c, addr, o))
    requires forall o :: o in c.ctl && !IsObj(c, addr, o) ==> ctl[o] == c.ctl[o]
    ensures ObjAt(c, addr, c.nobjs) !in c.header
    ensures CacheOk(Grown(c, addr, ctl), lists[ObjAt(c, addr, c.nobjs) := ObjsFrom(c, addr, 0)])
  {
    hide NoDup, Threaded, Chain, ObjAt, SlabSize, BlockSize, IsObj, SlabOk;
    var id, c' := ObjAt(c, addr, c.nobjs), Grown(c, addr, ctl);
    NewHeader(c, lists, addr);
    NewSlabOk(c, addr, ctl);
    forall x | x in c.header ensures SlabOk(c', x, lists[x]) {
      forall o | IsObj(c, c.header[x].addr, o) && o in c.ctl ensures o in ctl && ctl[o] == c.ctl[o] {
        NotBoth(c, addr, c.header[x].addr, o);
      }
      SlabKept(c, c', x, lists[x]);
    }
    OneMoreSlab(c.slabs, id);
    forall o | o in ctl ensures exists x :: x in c'.header && IsObj(c', c'.header[x].addr, o) {
      if IsObj(c, addr, o) {
        SameObj(c, c', addr, o);
        assert id in c'.header && IsObj(c', c'.header[id].addr, o);
      } else {
        var x :| x in c.header && IsObj(c, c.header[x].addr, o);
        SameObj(c, c', c.header[x].addr, o);
        assert x in c'.header && IsObj(c', c'.header[x].addr, o);
      }
    }
    ApartSymmetric(c, c', addr, id);
  }

  lemma ApartSymmetric(c: Cache, c': Cache, addr: nat, id: nat)
    requires c'.order == c.order && id !in c.header
    requires c'.header == c.header[id := c'.header[id := Header(addr, 0, addr)][id]]
    requires forall x :: x in c.header ==> Apart(addr, BlockSize(c.order), c.header[x].addr, BlockSize(c.order))
    requires forall a, b :: a in c.header && b in c.header && a != b ==>
               Apart(c.header[a].addr, BlockSize(c.order), c.header[b].addr, BlockSize(c.order))
    ensures forall a, b :: a in c'.header && b in c'.header && a != b ==>
              Apart(c'.header[a].addr, BlockSize(c'.order), c'.header[b].addr, BlockSize(c'.order))
  {
  }

  lemma OneMoreSlab(slabs: seq<nat>, id: nat)
    requires NoDup(slabs) && id !in slabs
    ensures NoDup([id] + slabs)
  {
  }

  lemma NotBoth(c: Cache, a: nat, b: nat, o: nat)
    requires SlabSize(c.objsize, c.nobjs) <= BlockSize(c.order) && Apart(a, BlockSize(c.order), b, BlockSize(c.order))
    requires IsObj(c, b, o)
    ensures !IsObj(c, a, o)
  {
    ObjInBlock(c, b, o);
    if IsObj(c, a, o) { ObjInBlock(c, a, o); }
  }

  lemma NewHeader(c: Cache, lists: map<nat, seq<nat>>, addr: nat)
    requires CacheOk(c, lists)
    requires forall id :: id in c.header ==> Apart(addr, BlockSize(c.order), c.header[id].addr, BlockSize(c.order))
    ensures ObjAt(c, addr, c.nobjs) !in c.header
  {
    var id := ObjAt(c, addr, c.nobjs);
    Layout(c, addr, 0, c.nobjs);
    if id in c.header { HeaderInBlock(c, lists, id); }
  }

  lemma NewSlabOk(c: Cache, addr: nat, ctl: map<nat, Ctl>)
    requires c.nobjs >= 1 && addr > 0 && Threaded(c, ctl, addr)
    ensures SlabOk(Grown(c, addr, ctl), ObjAt(c, addr, c.nobjs), ObjsFrom(c, addr, 0))
  {
    var c', id, list := Grown(c, addr, ctl), ObjAt(c, addr, c.nobjs), ObjsFrom(c, addr, 0);
    ObjsFromAre(c, addr, 0);
    ThreadedChain(c, ctl, addr, 0);
    forall o ensures IsObj(c', addr, o) <==> o in list { SameObj(c, c', addr, o); }
    forall o | o in list ensures o in ctl && ctl[o].Free? {
      var j: nat :| j < c.nobjs && o == ObjAt(c, addr, j);
      assert ctl[ObjAt(c, addr, j)] == Free(NextObj(c, addr, j));
    }
  }

  // Giving a slab's block back

  /** The slab is off the list, and its bufctls are gone with the block. */
  function Dropped(c: Cache, id: nat): Cache
    requires id in c.header
  {
    var addr := c.header[id].addr;
    c.(slabs := Without(c.slabs, id), header := c.header - {id},
       ctl := map o | o in c.ctl && !(addr <= o < id) :: c.ctl[o])
  }

  lemma InThatSlab(c: Cache, lists: map<nat, seq<nat>>, id: nat, o: nat)
    requires CacheOk(c, lists) && id in c.header && o in c.ctl
    ensures IsObj(c, c.header[id].addr, o) <==> c.header[id].addr <= o < id
  {
    hide SlabOk, IsObj, NoDup, ObjAt, SlabSize, BlockSize;
    HeaderInBlock(c, lists, id);
    if IsObj(c, c.header[id].addr, o) {
      ObjInBlock(c, c.header[id].addr, o);
    } else {
      var x :| x in c.header && IsObj(c, c.header[x].addr, o);
      ObjInBlock(c, c.header[x].addr, o);
    }
  }

  /** The objects of another slab are as they were. */
  lemma DroppedElsewhere(c: Cache, lists: map<nat, seq<nat>>, id: nat, x: nat)
    requires CacheOk(c, lists) && id in c.header && x in c.header && x != id
    ensures forall o :: IsObj(c, c.header[x].addr, o) && o in c.ctl ==>
             o in Dropped(c, id).ctl && Dropped(c, id).ctl[o] == c.ctl[o]
  {
    hide SlabOk, IsObj, NoDup, ObjAt, SlabSize, BlockSize;
    forall o | IsObj(c, c.header[x].addr, o) && o in c.ctl
      ensures o in Dropped(c, id).ctl && Dropped(c, id).ctl[o] == c.ctl[o]
    {
      InThatSlab(c, lists, id, o);
      if IsObj(c, c.header[id].addr, o) { OneSlab(c, lists, x, id, o); }
    }
  }

  lemma DroppedOk(c: Cache, lists: map<nat, seq<nat>>, id: nat)
    requires CacheOk(c, lists) && id in c.header
    ensures CacheOk(Dropped(c, id), lists - {id})
  {
    hide SlabOk, IsObj, NoDup, ObjAt, SlabSize, BlockSize;
    var c' := Dropped(c, id);
    forall x | x in c'.header ensures SlabOk(c', x, lists[x]) {
      DroppedElsewhere(c, lists, id, x);
      SlabKept(c, c', x, lists[x]);
    }
    forall o | o in c'.ctl ensures exists x :: x in c'.header && IsObj(c', c'.header[x].addr, o) {
      InThatSlab(c, lists, id, o);
      var x :| x in c.header && IsObj(c, c.header[x].addr, o);
      SameObj(c, c', c.header[x].addr, o);
      assert x in c'.header && IsObj(c', c'.header[x].addr, o);
    }
  }
}
