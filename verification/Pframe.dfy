/**
 The page frame cache (kernel/mm/pframe.c): resident pages, indexed by the
 allocated and pinned lists, by hash chains and by their objects' lists. Page
 frames and memory objects are named by their addresses. Blocking and busy
 pages are left out, so every operation runs to its end.
 */
module Pframe {
  import opened Lists
  import opened Options

  const PF_HASH_SIZE: nat := 17

  datatype Frame = Frame(obj: nat, pagenum: nat, pincount: nat, dirty: bool)

  datatype Mmobj = Mmobj(refcount: int, nrespages: int, respages: seq<nat>, shadowed: Option<nat>)

  type Frames = map<nat, Frame>
  type Objects = map<nat, Mmobj>

  /** hash_page, on 32-bit addresses and page numbers. */
  function HashPage(o: nat, pagenum: nat): nat { (o + pagenum) % 0x1_0000_0000 % PF_HASH_SIZE }

  /** f is the page with this identity. */
  predicate HasPage(frames: Frames, o: nat, pagenum: nat, f: nat)
  {
    f in frames && frames[f].obj == o && frames[f].pagenum == pagenum
  }

  // The indexes agree

  ghost predicate Unique(frames: Frames)
  {
    forall f, g ::
      f in frames && g in frames && frames[f].obj == frames[g].obj && frames[f].pagenum == frames[g].pagenum
      ==> f == g
  }

  /** Each page is on one of the two lists, according to its pin count. */
  ghost predicate OnLists(frames: Frames, alloc: seq<nat>, pinned: seq<nat>)
  {
    && NoDup(alloc) && NoDup(pinned)
    && (forall f :: f in alloc <==> f in frames && frames[f].pincount == 0)
    && (forall f :: f in pinned <==> f in frames && frames[f].pincount > 0)
  }

  /** Each page is on the hash chain of its identity. */
  ghost predicate Hashed(frames: Frames, hash: seq<seq<nat>>)
  {
    && |hash| == PF_HASH_SIZE
    && (forall i :: 0 <= i < |hash| ==> NoDup(hash[i]))
    && (forall i, f :: 0 <= i < |hash| ==>
          (f in hash[i] <==> f in frames && HashPage(frames[f].obj, frames[f].pagenum) == i))
  }

  /** Each page is on its object's list, and the objects count their pages. */
  ghost predicate Owned(frames: Frames, objs: Objects)
  {
    && (forall f :: f in frames ==> frames[f].obj in objs)
    && (forall o :: o in objs ==> OwnPages(frames, o, objs[o]))
  }

  ghost predicate OwnPages(frames: Frames, o: nat, ob: Mmobj)
  {
    && NoDup(ob.respages) && ob.nrespages == |ob.respages|
    && (forall f :: f in ob.respages <==> f in frames && frames[f].obj == o)
  }

  /** The sum of the pin counts of the listed pages. */
  function Pins(pinned: seq<nat>, frames: Frames): nat
  {
    if pinned == [] then 0
    else (if pinned[0] in frames then frames[pinned[0]].pincount else 0) + Pins(pinned[1..], frames)
  }

  lemma {:induction false} PinsSame(pinned: seq<nat>, frames: Frames, frames': Frames)
    requires forall f :: f in pinned ==> (f in frames <==> f in frames')
    requires forall f :: f in pinned && f in frames ==> frames[f].pincount == frames'[f].pincount
    ensures Pins(pinned, frames) == Pins(pinned, frames')
  {
    if pinned != [] { PinsSame(pinned[1..], frames, frames'); }
  }

  lemma {:induction false} PinsAppend(pinned: seq<nat>, f: nat, frames: Frames)
    requires f in frames
    ensures Pins(pinned + [f], frames) == Pins(pinned, frames) + frames[f].pincount
  {
    if pinned == [] {
      assert [] + [f] == [f];
    } else {
      assert (pinned + [f])[1..] == pinned[1..] + [f];
      PinsAppend(pinned[1..], f, frames);
    }
  }

  /** Changing the pin count of one page on the list. */
  lemma {:induction false} PinsUpdate(pinned: seq<nat>, f: nat, frames: Frames, x: Frame)
    requires NoDup(pinned) && f in frames && f in pinned
    ensures Pins(pinned, frames[f := x]) == Pins(pinned, frames) + x.pincount - frames[f].pincount
  {
    if pinned[0] == f {
      PinsSame(pinned[1..], frames, frames[f := x]);
    } else {
      PinsUpdate(pinned[1..], f, frames, x);
    }
  }

  lemma {:induction false} PinsWithout(pinned: seq<nat>, f: nat, frames: Frames)
    requires NoDup(pinned) && f in frames && f in pinned
    ensures Pins(Without(pinned, f), frames) == Pins(pinned, frames) - frames[f].pincount
  {
    if pinned[0] != f {
      PinsWithout(pinned[1..], f, frames);
      var rest := Without(pinned[1..], f);
      assert ([pinned[0]] + rest)[1..] == rest;
    }
  }

  // Objects gaining and losing a page

  function Gain(ob: Mmobj, f: nat): Mmobj
  {
    ob.(refcount := ob.refcount + 1, nrespages := ob.nrespages + 1, respages := [f] + ob.respages)
  }

  function Lose(ob: Mmobj, f: nat): Mmobj
  {
    ob.(refcount := ob.refcount - 1, nrespages := ob.nrespages - 1, respages := Without(ob.respages, f))
  }

  lemma OwnedAdd(frames: Frames, objs: Objects, f: nat, x: Frame)
    requires Owned(frames, objs) && f !in frames && x.obj in objs
    ensures Owned(frames[f := x], objs[x.obj := Gain(objs[x.obj], f)])
  {
    forall o | o in objs ensures OwnPages(frames[f := x], o, objs[x.obj := Gain(objs[x.obj], f)][o]) {
      assert OwnPages(frames, o, objs[o]);
    }
  }

  lemma OwnedRemove(frames: Frames, objs: Objects, f: nat)
    requires Owned(frames, objs) && f in frames
    ensures frames[f].obj in objs && Owned(frames - {f}, objs[frames[f].obj := Lose(objs[frames[f].obj], f)])
  {
    var x := frames[f].obj;
    forall o | o in objs ensures OwnPages(frames - {f}, o, objs[x := Lose(objs[x], f)][o]) {
      assert OwnPages(frames, o, objs[o]);
    }
  }

  lemma OwnedSame(frames: Frames, objs: Objects, f: nat, x: Frame)
    requires Owned(frames, objs) && f in frames && x.obj == frames[f].obj
    ensures Owned(frames[f := x], objs)
  {
    forall o | o in objs ensures OwnPages(frames[f := x], o, objs[o]) { assert OwnPages(frames, o, objs[o]); }
  }

  // The two lists and the identities

  lemma AddUnpinned(frames: Frames, alloc: seq<nat>, pinned: seq<nat>, f: nat, x: Frame)
    requires Unique(frames) && OnLists(frames, alloc, pinned) && f !in frames && x.pincount == 0
    requires forall g :: !HasPage(frames, x.obj, x.pagenum, g)
    ensures Unique(frames[f := x]) && OnLists(frames[f := x], alloc + [f], pinned)
    ensures Pins(pinned, frames[f := x]) == Pins(pinned, frames)
  {
    forall g | g in frames ensures !(frames[g].obj == x.obj && frames[g].pagenum == x.pagenum) {
      assert !HasPage(frames, x.obj, x.pagenum, g);
    }
    PinsSame(pinned, frames, frames[f := x]);
  }

  lemma RemoveUnpinned(frames: Frames, alloc: seq<nat>, pinned: seq<nat>, f: nat)
    requires Unique(frames) && OnLists(frames, alloc, pinned) && f in frames && frames[f].pincount == 0
    ensures |Without(alloc, f)| == |alloc| - 1
    ensures Unique(frames - {f}) && OnLists(frames - {f}, Without(alloc, f), pinned)
    ensures Pins(pinned, frames - {f}) == Pins(pinned, frames)
  {
    PinsOfUnlisted(pinned, frames, f);
  }

  /** The same page with another pin count. */
  ghost predicate Repinned(frames: Frames, f: nat, x: Frame)
  {
    f in frames && x.obj == frames[f].obj && x.pagenum == frames[f].pagenum
  }

  lemma FirstPin(frames: Frames, alloc: seq<nat>, pinned: seq<nat>, f: nat, x: Frame)
    requires Unique(frames) && OnLists(frames, alloc, pinned) && Repinned(frames, f, x)
    requires frames[f].pincount == 0 && x.pincount == 1
    ensures |Without(alloc, f)| == |alloc| - 1
    ensures Unique(frames[f := x]) && OnLists(frames[f := x], Without(alloc, f), pinned + [f])
    ensures Pins(pinned + [f], frames[f := x]) == Pins(pinned, frames) + 1
  {
    PinsSame(pinned, frames, frames[f := x]);
    PinsAppend(pinned, f, frames[f := x]);
  }

  lemma StillPinned(frames: Frames, alloc: seq<nat>, pinned: seq<nat>, f: nat, x: Frame)
    requires Unique(frames) && OnLists(frames, alloc, pinned) && Repinned(frames, f, x)
    requires frames[f].pincount > 0 && x.pincount > 0
    ensures Unique(frames[f := x]) && OnLists(frames[f := x], alloc, pinned)
    ensures Pins(pinned, frames[f := x]) == Pins(pinned, frames) + x.pincount - frames[f].pincount
  {
    PinsUpdate(pinned, f, frames, x);
  }

  lemma SamePins(frames: Frames, alloc: seq<nat>, pinned: seq<nat>, f: nat, x: Frame)
    requires Unique(frames) && OnLists(frames, alloc, pinned) && Repinned(frames, f, x)
    requires x.pincount == frames[f].pincount
    ensures Unique(frames[f := x]) && OnLists(frames[f := x], alloc, pinned)
    ensures Pins(pinned, frames[f := x]) == Pins(pinned, frames)
  {
    PinsSame(pinned, frames, frames[f := x]);
  }

  lemma LastPin(frames: Frames, alloc: seq<nat>, pinned: seq<nat>, f: nat, x: Frame)
    requires Unique(frames) && OnLists(frames, alloc, pinned) && Repinned(frames, f, x)
    requires frames[f].pincount == 1 && x.pincount == 0
    ensures Unique(frames[f := x]) && OnLists(frames[f := x], alloc + [f], Without(pinned, f))
    ensures Pins(Without(pinned, f), frames[f := x]) == Pins(pinned, frames) - 1
  {
    PinsUpdate(pinned, f, frames, x);
    PinsWithout(pinned, f, frames[f := x]);
  }

  function Chain(x: Frame): nat { HashPage(x.obj, x.pagenum) }

  lemma HashedAdd(frames: Frames, hash: seq<seq<nat>>, f: nat, x: Frame)
    requires Hashed(frames, hash) && f !in frames
    ensures Hashed(frames[f := x], hash[Chain(x) := [f] + hash[Chain(x)]])
  {
  }

  lemma HashedSame(frames: Frames, hash: seq<seq<nat>>, f: nat, x: Frame)
    requires Hashed(frames, hash) && Repinned(frames, f, x)
    ensures Hashed(frames[f := x], hash)
  {
  }

  lemma HashedRemove(frames: Frames, hash: seq<seq<nat>>, f: nat)
    requires Hashed(frames, hash) && f in frames
    ensures Hashed(frames - {f}, hash[Chain(frames[f]) := Without(hash[Chain(frames[f])], f)])
  {
  }

  class PageCache {
    var frames: Frames
    var objs: Objects
    var allocList: seq<nat>
    var pinnedList: seq<nat>
    var hash: seq<seq<nat>>
    var nallocated: int
    var npinned: int

    ghost predicate Valid()
      reads this
    {
      && Unique(frames) && OnLists(frames, allocList, pinnedList) && Hashed(frames, hash) && Owned(frames, objs)
      && nallocated == |allocList| && npinned == Pins(pinnedList, frames)
    }

    /** pframe_init, with no pages and the given objects. */
    constructor (objects: Objects)
      requires forall o :: o in objects ==> objects[o].respages == [] && objects[o].nrespages == 0
      ensures Valid() && frames == map[] && objs == objects
    {
      frames, objs := map[], objects;
      allocList, pinnedList := [], [];
      hash := seq(PF_HASH_SIZE, _ => []);
      nallocated, npinned := 0, 0;
    }

    /** pframe_get_resident: the hash chain has the page exactly when the page is resident. */
    method GetResident(o: nat, pagenum: nat) returns (r: Option<nat>)
      requires Valid()
      modifies this`allocList
      ensures Valid()
      ensures match r
              case Some(f) => HasPage(frames, o, pagenum, f)
              case None => forall f :: !HasPage(frames, o, pagenum, f)
      ensures r.Some? && frames[r.value].pincount == 0 ==> allocList == Without(old(allocList), r.value) + [r.value]
      ensures r.None? || frames[r.value].pincount > 0 ==> allocList == old(allocList)
    {
      var chain := hash[HashPage(o, pagenum)];
      var i := 0;
      while i < |chain|
        invariant 0 <= i <= |chain|
        invariant forall j :: 0 <= j < i ==> !HasPage(frames, o, pagenum, chain[j])
      {
        var pf := chain[i];
        assert pf in chain;
        if frames[pf].obj == o && frames[pf].pagenum == pagenum {
          if frames[pf].pincount == 0 {
            MovedToBack(allocList, pf);
            allocList := Without(allocList, pf) + [pf];
          }
          return Some(pf);
        }
        i := i + 1;
      }
      forall f ensures !HasPage(frames, o, pagenum, f) {
        if f in frames && f in chain { var j :| 0 <= j < |chain| && chain[j] == f; }
      }
      return None;
    }

    /** pframe_alloc: a new unpinned page; none if there is no memory for it. */
    method Alloc(o: nat, pagenum: nat, memory: Option<nat>) returns (r: Option<nat>)
      requires Valid() && o in objs && forall f :: !HasPage(frames, o, pagenum, f)
      requires memory.Some? ==> memory.value !in frames
      modifies this
      ensures Valid() && r == memory && pinnedList == old(pinnedList)
      ensures r.Some? ==>
                && frames == old(frames)[r.value := Frame(o, pagenum, 0, false)]
                && objs == old(objs)[o := Gain(old(objs)[o], r.value)]
      ensures r.None? ==> frames == old(frames) && objs == old(objs)
    {
      hide Unique, OnLists, Hashed, Owned, Pins, NoDup;
      if memory.None? {
        return None;
      }
      var pf := memory.value;
      ghost var x := Frame(o, pagenum, 0, false);
      AddUnpinned(frames, allocList, pinnedList, pf, x);
      OwnedAdd(frames, objs, pf, x);
      HashedAdd(frames, hash, pf, x);
      ChainsExist(frames, hash);
      nallocated := nallocated + 1;
      allocList := allocList + [pf];
      frames := frames[pf := Frame(o, pagenum, 0, false)];
      var h := HashPage(o, pagenum);
      hash := hash[h := [pf] + hash[h]];
      objs := objs[o := objs[o].(refcount := objs[o].refcount + 1)];
      objs := objs[o := objs[o].(nrespages := objs[o].nrespages + 1)];
      objs := objs[o := objs[o].(respages := [pf] + objs[o].respages)];
      assert objs == old(objs)[o := Gain(old(objs)[o], pf)];
      r := memory;
    }

    /** pframe_pin. */
    method Pin(pf: nat)
      requires Valid() && pf in frames
      modifies this
      ensures Valid() && objs == old(objs) && hash == old(hash)
      ensures frames == old(frames)[pf := old(frames)[pf].(pincount := old(frames)[pf].pincount + 1)]
    {
      hide Unique, OnLists, Hashed, Owned, Pins, NoDup;
      ghost var x := frames[pf].(pincount := frames[pf].pincount + 1);
      OwnedSame(frames, objs, pf, x);
      HashedSame(frames, hash, pf, x);
      if frames[pf].pincount == 0 {
        FirstPin(frames, allocList, pinnedList, pf, x);
        allocList := Without(allocList, pf);
        nallocated := nallocated - 1;
        pinnedList := pinnedList + [pf];
      } else {
        StillPinned(frames, allocList, pinnedList, pf, x);
      }
      npinned := npinned + 1;
      frames := frames[pf := frames[pf].(pincount := frames[pf].pincount + 1)];
    }

    /** pframe_unpin. */
    method Unpin(pf: nat)
      requires Valid() && pf in frames && frames[pf].pincount > 0
      modifies this
      ensures Valid() && objs == old(objs) && hash == old(hash)
      ensures frames == old(frames)[pf := old(frames)[pf].(pincount := old(frames)[pf].pincount - 1)]
    {
      hide Unique, OnLists, Hashed, Owned, Pins, NoDup;
      ghost var x := frames[pf].(pincount := frames[pf].pincount - 1);
      OwnedSame(frames, objs, pf, x);
      HashedSame(frames, hash, pf, x);
      if x.pincount == 0 {
        LastPin(frames, allocList, pinnedList, pf, x);
      } else {
        StillPinned(frames, allocList, pinnedList, pf, x);
      }
      frames := frames[pf := frames[pf].(pincount := frames[pf].pincount - 1)];
      npinned := npinned - 1;
      if frames[pf].pincount == 0 {
        pinnedList := Without(pinnedList, pf);
        allocList := allocList + [pf];
        nallocated := nallocated + 1;
      }
    }

    /** pframe_clean, as far as the cache goes: the page must be dirty and unpinned. */
    method Clean(pf: nat)
      requires Valid() && pf in frames && frames[pf].dirty && frames[pf].pincount == 0
      modifies this`frames
      ensures Valid() && frames == old(frames)[pf := old(frames)[pf].(dirty := false)]
    {
      hide Unique, OnLists, Hashed, Owned, Pins, NoDup;
      ghost var x := frames[pf].(dirty := false);
      OwnedSame(frames, objs, pf, x);
      HashedSame(frames, hash, pf, x);
      SamePins(frames, allocList, pinnedList, pf, x);
      frames := frames[pf := frames[pf].(dirty := false)];
    }

    /** pframe_free. */
    method Free(pf: nat)
      requires Valid() && pf in frames && frames[pf].pincount == 0
      modifies this
      ensures Valid() && frames == old(frames) - {pf}
      ensures old(frames)[pf].obj in old(objs)
      ensures objs == old(objs)[old(frames)[pf].obj := Lose(old(objs)[old(frames)[pf].obj], pf)]
    {
      hide Unique, OnLists, Hashed, Owned, Pins, NoDup;
      RemoveUnpinned(frames, allocList, pinnedList, pf);
      OwnedRemove(frames, objs, pf);
      HashedRemove(frames, hash, pf);
      ChainsExist(frames, hash);
      var o := frames[pf].obj;
      var h := HashPage(o, frames[pf].pagenum);
      hash := hash[h := Without(hash[h], pf)];
      nallocated := nallocated - 1;
      allocList := Without(allocList, pf);
      frames := frames - {pf};
      objs := objs[o := objs[o].(nrespages := objs[o].nrespages - 1)];
      objs := objs[o := objs[o].(respages := Without(objs[o].respages, pf))];
      objs := objs[o := objs[o].(refcount := objs[o].refcount - 1)];
      assert objs == old(objs)[o := Lose(old(objs)[o], pf)];
    }

    /**
     pframe_migrate: the page becomes dest's, unless dest already has that page;
     then it is unpinned, cleaned and freed, for which it must be dirty and pinned
     once.
     */
    method Migrate(pf: nat, dest: nat)
      requires Valid() && pf in frames && dest in objs && frames[pf].obj != dest
      requires (exists g :: HasPage(frames, dest, frames[pf].pagenum, g)) ==>
                frames[pf].pincount == 1 && frames[pf].dirty
      modifies this
      ensures Valid() && old(frames)[pf].obj in old(objs)
      ensures var src := old(frames)[pf].obj;
              if exists g :: HasPage(old(frames), dest, old(frames)[pf].pagenum, g)
              then frames == old(frames) - {pf} && objs == old(objs)[src := Lose(old(objs)[src], pf)]
              else && frames == old(frames)[pf := old(frames)[pf].(obj := dest)]
                   && objs == old(objs)[src := Lose(old(objs)[src], pf)][dest := Gain(old(objs)[dest], pf)]
    {
      hide Unique, OnLists, Hashed, Owned, Pins, NoDup;
      var there := GetResident(dest, frames[pf].pagenum);
      if there.Some? {
        Unpin(pf);
        Clean(pf);
        Free(pf);
        assert frames == old(frames) - {pf};
      } else {
        Move(pf, dest);
      }
    }

    /** The page goes from its object's list and hash chain to those of dest. */
    method Move(pf: nat, dest: nat)
      requires Valid() && pf in frames && dest in objs && frames[pf].obj != dest
      requires forall g :: !HasPage(frames, dest, frames[pf].pagenum, g)
      modifies this
      ensures Valid() && old(frames)[pf].obj in old(objs)
      ensures frames == old(frames)[pf := old(frames)[pf].(obj := dest)]
      ensures var src := old(frames)[pf].obj;
              objs == old(objs)[src := Lose(old(objs)[src], pf)][dest := Gain(old(objs)[dest], pf)]
    {
      hide Unique, OnLists, Hashed, Owned, Pins, NoDup;
      ghost var x := frames[pf].(obj := dest);
      MovePage(frames, allocList, pinnedList, pf, x);
      HashedRemove(frames, hash, pf);
      OwnedRemove(frames, objs, pf);
      ChainsExist(frames, hash);
      var src, h := frames[pf].obj, HashPage(frames[pf].obj, frames[pf].pagenum);
      ghost var fs, hs, os := frames - {pf}, hash[h := Without(hash[h], pf)], objs[src := Lose(objs[src], pf)];
      HashedAdd(fs, hs, pf, x);
      OwnedAdd(fs, os, pf, x);
      assert fs[pf := x] == frames[pf := x];
      frames := frames[pf := frames[pf].(obj := dest)];
      hash := hash[h := Without(hash[h], pf)];
      objs := objs[src := objs[src].(respages := Without(objs[src].respages, pf))];
      objs := objs[src := objs[src].(nrespages := objs[src].nrespages - 1)];
      objs := objs[src := objs[src].(refcount := objs[src].refcount - 1)];
      assert objs == os;
      var h' := HashPage(dest, frames[pf].pagenum);
      hash := hash[h' := [pf] + hash[h']];
      objs := objs[dest := objs[dest].(respages := [pf] + objs[dest].respages)];
      objs := objs[dest := objs[dest].(nrespages := objs[dest].nrespages + 1)];
      objs := objs[dest := objs[dest].(refcount := objs[dest].refcount + 1)];
      assert objs == os[dest := Gain(os[dest], pf)];
    }
  }

  /** Looking in the hash chain and scanning the object's list find the same page. */
  lemma LookupAgrees(c: PageCache, o: nat, pagenum: nat, f: nat)
    requires c.Valid() && o in c.objs
    ensures |c.hash| == PF_HASH_SIZE
    ensures HasPage(c.frames, o, pagenum, f)
       <==> f in c.hash[HashPage(o, pagenum)] && c.frames[f].obj == o && c.frames[f].pagenum == pagenum
    ensures HasPage(c.frames, o, pagenum, f) <==> f in c.objs[o].respages && c.frames[f].pagenum == pagenum
  {
    assert OwnPages(c.frames, o, c.objs[o]);
  }

  /** An identity no page has can be given to any page. */
  lemma MovePage(frames: Frames, alloc: seq<nat>, pinned: seq<nat>, f: nat, x: Frame)
    requires Unique(frames) && OnLists(frames, alloc, pinned) && f in frames && x.pincount == frames[f].pincount
    requires forall g :: !HasPage(frames, x.obj, x.pagenum, g)
    ensures Unique(frames[f := x]) && OnLists(frames[f := x], alloc, pinned)
    ensures Pins(pinned, frames[f := x]) == Pins(pinned, frames)
  {
    forall g | g in frames ensures !(frames[g].obj == x.obj && frames[g].pagenum == x.pagenum) {
      assert !HasPage(frames, x.obj, x.pagenum, g);
    }
    PinsSame(pinned, frames, frames[f := x]);
  }

  lemma {:induction false} PinsOfUnlisted(pinned: seq<nat>, frames: Frames, f: nat)
    requires f !in pinned
    ensures Pins(pinned, frames - {f}) == Pins(pinned, frames)
  {
    if pinned != [] { PinsOfUnlisted(pinned[1..], frames, f); }
  }

  lemma ChainsExist(frames: Frames, hash: seq<seq<nat>>)
    requires Hashed(frames, hash)
    ensures |hash| == PF_HASH_SIZE
  {
  }

  lemma MovedToBack(s: seq<nat>, x: nat)
    requires NoDup(s) && x in s
    ensures var t := Without(s, x) + [x];
            NoDup(t) && |t| == |s| && forall y :: y in t <==> y in s
  {
  }
}
