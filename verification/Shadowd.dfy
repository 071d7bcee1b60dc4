/**
 The shadow daemon (kernel/vm/shadowd.c): one pass over the areas of all processes.
 A shadow object that is neither at the top nor at the bottom of a chain and has a
 single parent gives its pages to the object above and is taken out of the chain.

 releases says whether the last put of an object also drops its reference on the
 object it shadowed. The daemon is written for an implementation that does;
 shadow_put in kernel/vm/shadow.c does not.
 */
module Shadowd {
  import opened Chains
  import opened Lists
  import opened Options
  import opened Pframe
  import opened Shadow

  /** Pages of shadow objects are dirty and pinned once, as pframe_migrate needs to drop one. */
  ghost predicate PinnedOnce(frames: Frames, objs: Objects)
  {
    forall f :: f in frames && frames[f].obj in objs && objs[frames[f].obj].shadowed.Some? ==>
      frames[f].pincount == 1 && frames[f].dirty
  }

  /** The daemon's invariant while it holds a reference. */
  ghost predicate Ready(c: PageCache, held: Option<nat>, areas: seq<nat>, rank: Ranks, drift: multiset<nat>)
    reads c
  {
    c.Valid() && Sound(TreeOf(c.objs, held), areas, rank, drift) && PinnedOnce(c.frames, c.objs)
  }

  lemma OwnedKept(frames: Frames, objs: Objects, x: nat, refcount: int, shadowed: Option<nat>)
    requires Owned(frames, objs) && x in objs
    ensures Owned(frames, objs[x := objs[x].(refcount := refcount, shadowed := shadowed)])
  {
    forall o | o in objs
      ensures OwnPages(frames, o, objs[x := objs[x].(refcount := refcount, shadowed := shadowed)][o])
    {
      assert OwnPages(frames, o, objs[o]);
    }
  }

  /** shadow_ref. */
  method Ref(c: PageCache, x: nat)
    requires c.Valid() && x in c.objs && c.objs[x].refcount > 0
    modifies c`objs
    ensures c.Valid() && c.objs == old(c.objs)[x := old(c.objs)[x].(refcount := old(c.objs)[x].refcount + 1)]
  {
    hide Unique, OnLists, Hashed, Owned, Pins, NoDup;
    OwnedKept(c.frames, c.objs, x, c.objs[x].refcount + 1, c.objs[x].shadowed);
    c.objs := c.objs[x := c.objs[x].(refcount := c.objs[x].refcount + 1)];
  }

  /** shadow_put, unless it is the last reference besides the pages' of an object that has pages. */
  method Put(c: PageCache, x: nat)
    requires c.Valid() && x in c.objs && c.objs[x].refcount > 0
    requires c.objs[x].refcount - c.objs[x].nrespages == 1 ==> c.objs[x].respages == []
    modifies c`objs
    ensures c.Valid() && c.objs == old(c.objs)[x := old(c.objs)[x].(refcount := old(c.objs)[x].refcount - 1)]
  {
    hide Unique, OnLists, Hashed, Owned, Pins, NoDup;
    OwnedKept(c.frames, c.objs, x, c.objs[x].refcount - 1, c.objs[x].shadowed);
    c.objs := c.objs[x := c.objs[x].(refcount := c.objs[x].refcount - 1)];
  }

  lemma FirstPage(frames: Frames, objs: Objects, o: nat)
    requires Owned(frames, objs) && PinnedOnce(frames, objs) && o in objs && objs[o].respages != []
    requires objs[o].shadowed.Some?
    ensures var pf := objs[o].respages[0];
            pf in frames && frames[pf].obj == o && frames[pf].pincount == 1 && frames[pf].dirty
  {
    assert OwnPages(frames, o, objs[o]);
    assert objs[o].respages[0] in objs[o].respages;
  }

  /** What a migration does to the objects. */
  ghost predicate Migrated(frames: Frames, objs: Objects, frames': Frames, objs': Objects, pf: nat, last: nat)
    requires pf in frames && frames[pf].obj in objs && last in objs
  {
    var o := frames[pf].obj;
    && Moved(frames, frames', last, pf)
    && (objs' == objs[o := Lose(objs[o], pf)] || objs' == objs[o := Lose(objs[o], pf)][last := Gain(objs[last], pf)])
  }

  lemma MigratedTree(frames: Frames, objs: Objects, frames': Frames, objs': Objects, pf: nat, o: nat, last: nat)
    requires pf in frames && frames[pf].obj == o && o in objs && last in objs && o != last
    requires Migrated(frames, objs, frames', objs', pf, last) && PinnedOnce(frames, objs)
    requires objs[o].shadowed.Some? && objs[last].shadowed.Some? && objs[o].respages != [] && pf == objs[o].respages[0]
    ensures TreeOf(objs', Some(last)) == TreeOf(objs, Some(last)) && PinnedOnce(frames', objs')
    ensures o in objs' && objs'[o].respages == objs[o].respages[1..]
  {
    assert forall x :: x in objs ==> x in objs' && objs'[x].shadowed == objs[x].shadowed;
  }

  lemma TreeNode(objs: Objects, held: Option<nat>, x: nat)
    requires x in TreeOf(objs, held)
    ensures x in objs && objs[x].shadowed == TreeOf(objs, held)[x].shadowed
  {
  }

  /** One page of o goes to last; no area sees a difference. */
  method MigrateOne(c: PageCache, pf: nat, o: nat, last: nat, ghost areas: seq<nat>, ghost rank: Ranks,
                    ghost drift: multiset<nat>)
    requires Ready(c, Some(last), areas, rank, drift) && OnlyParent(TreeOf(c.objs, Some(last)), last, o) && o !in areas
    requires c.objs[o].respages != [] && pf == c.objs[o].respages[0]
    modifies c
    ensures Ready(c, Some(last), areas, rank, drift) && TreeOf(c.objs, Some(last)) == old(TreeOf(c.objs, Some(last)))
    ensures o in c.objs && c.objs[o].respages == old(c.objs[o].respages)[1..]
    ensures SameViews(old(c.frames), old(TreeOf(c.objs, Some(last))), c.frames, TreeOf(c.objs, Some(last)), rank, areas)
  {
    hide Unique, OnLists, Hashed, Owned, Pins, NoDup, Acyclic, Parents, SameViews, TreeOf, PinnedOnce;
    ghost var frames, objs, tree := c.frames, c.objs, TreeOf(c.objs, Some(last));
    TreeNode(objs, Some(last), o);
    TreeNode(objs, Some(last), last);
    FirstPage(frames, objs, o);
    c.Migrate(pf, last);
    MigratedTree(frames, objs, c.frames, c.objs, pf, o, last);
    MovedViews(frames, c.frames, tree, areas, rank, drift, last, o, pf);
  }

  lemma ViewsTransitive(f1: Frames, t1: Tree, f2: Frames, t2: Tree, f3: Frames, t3: Tree, rank: Ranks, areas: seq<nat>)
    requires Acyclic(t1, rank) && Acyclic(t2, rank) && Acyclic(t3, rank)
    requires forall i :: 0 <= i < |areas| ==> areas[i] in t1 && areas[i] in t2 && areas[i] in t3
    requires SameViews(f1, t1, f2, t2, rank, areas) && SameViews(f2, t2, f3, t3, rank, areas)
    ensures SameViews(f1, t1, f3, t3, rank, areas)
  {
    forall i, pagenum, f | 0 <= i < |areas|
      ensures Sees(f1, t1, rank, areas[i], pagenum, f) <==> Sees(f3, t3, rank, areas[i], pagenum, f)
    {
      assert Sees(f2, t2, rank, areas[i], pagenum, f) <==> Sees(f3, t3, rank, areas[i], pagenum, f);
    }
  }

  lemma ViewsReflexive(frames: Frames, tree: Tree, rank: Ranks, areas: seq<nat>)
    requires Acyclic(tree, rank) && forall i :: 0 <= i < |areas| ==> areas[i] in tree
    ensures SameViews(frames, tree, frames, tree, rank, areas)
  {
  }

  /** All pages of o go to last. */
  method MigrateAll(c: PageCache, o: nat, last: nat, ghost areas: seq<nat>, ghost rank: Ranks,
                    ghost drift: multiset<nat>)
    requires Ready(c, Some(last), areas, rank, drift) && OnlyParent(TreeOf(c.objs, Some(last)), last, o) && o !in areas
    modifies c
    ensures Ready(c, Some(last), areas, rank, drift) && TreeOf(c.objs, Some(last)) == old(TreeOf(c.objs, Some(last)))
    ensures o in c.objs && c.objs[o].respages == []
    ensures SameViews(old(c.frames), old(TreeOf(c.objs, Some(last))), c.frames, TreeOf(c.objs, Some(last)), rank, areas)
  {
    hide Unique, OnLists, Hashed, Owned, Pins, NoDup, Acyclic, Parents, SameViews, TreeOf, PinnedOnce;
    ghost var frames, tree := c.frames, TreeOf(c.objs, Some(last));
    TreeNode(c.objs, Some(last), o);
    ViewsReflexive(frames, tree, rank, areas);
    var pages, i := c.objs[o].respages, 0;
    while i < |pages|
      invariant 0 <= i <= |pages| && Ready(c, Some(last), areas, rank, drift) && TreeOf(c.objs, Some(last)) == tree
      invariant o in c.objs && c.objs[o].respages == pages[i..]
      invariant SameViews(frames, tree, c.frames, tree, rank, areas)
    {
      ghost var before := c.frames;
      MigrateOne(c, pages[i], o, last, areas, rank, drift);
      ViewsTransitive(frames, tree, before, tree, c.frames, tree, rank, areas);
      i := i + 1;
    }
  }

  /** The objects after o, which has no pages, is taken out between last and s and put for the last time. */
  ghost function SplicedObjects(objs: Objects, releases: bool, last: nat, o: nat, s: nat): Objects
    requires last in objs && o in objs && s in objs && last != o && o != s && s != last
  {
    objs[last := objs[last].(shadowed := Some(s))][o := objs[o].(refcount := 0)]
        [s := objs[s].(refcount := objs[s].refcount + (if releases then 0 else 1))]
  }

  lemma SplicedObjectsTree(frames: Frames, objs: Objects, releases: bool, last: nat, o: nat, s: nat)
    requires last in objs && o in objs && s in objs && last != o && o != s && s != last
    requires objs[last].shadowed == Some(o) && objs[o].shadowed == Some(s) && objs[o].nrespages == 0
    requires PinnedOnce(frames, objs)
    ensures TreeOf(SplicedObjects(objs, releases, last, o, s), Some(last))
         == SplicedTree(TreeOf(objs, Some(last)), releases, last)
    ensures PinnedOnce(frames, SplicedObjects(objs, releases, last, o, s))
  {
  }

  lemma NoPages(frames: Frames, objs: Objects, o: nat)
    requires Owned(frames, objs) && o in objs && objs[o].respages == []
    ensures objs[o].nrespages == 0 && forall g :: g in frames ==> frames[g].obj != o
  {
    assert OwnPages(frames, o, objs[o]);
  }

  lemma PagesCounted(frames: Frames, objs: Objects, x: nat)
    requires Owned(frames, objs) && x in objs
    ensures objs[x].nrespages >= 0
  {
    assert OwnPages(frames, x, objs[x]);
  }

  /** o, which has no pages, is taken out of the chain and put; the assertion on its count holds. */
  method Unlink(c: PageCache, last: nat, o: nat, s: nat, releases: bool)
    requires c.Valid() && last in c.objs && o in c.objs && s in c.objs && last != o && o != s && s != last
    requires c.objs[last].shadowed == Some(o) && c.objs[o].shadowed == Some(s)
    requires c.objs[o].respages == [] && c.objs[o].refcount - c.objs[o].nrespages == 1 && c.objs[s].refcount > 0
    modifies c`objs
    ensures c.Valid() && c.objs == SplicedObjects(old(c.objs), releases, last, o, s)
  {
    hide Unique, OnLists, Hashed, Owned, Pins, NoDup;
    NoPages(c.frames, c.objs, o);
    OwnedKept(c.frames, c.objs, last, c.objs[last].refcount, c.objs[o].shadowed);
    c.objs := c.objs[last := c.objs[last].(shadowed := c.objs[o].shadowed)];
    Ref(c, c.objs[o].shadowed.value);
    assert c.objs[o].refcount == 1 && c.objs[o].nrespages == 0;
    Put(c, o);
    if releases {
      OwnedKept(c.frames, c.objs, s, c.objs[s].refcount - 1, c.objs[s].shadowed);
      c.objs := c.objs[s := c.objs[s].(refcount := c.objs[s].refcount - 1)];
    }
  }

  /** An object with a single parent leaves the chain; no area sees a difference. */
  method SpliceOut(c: PageCache, last: nat, o: nat, s: nat, releases: bool,
                   ghost areas: seq<nat>, ghost rank: Ranks, ghost drift: multiset<nat>)
    requires Ready(c, Some(last), areas, rank, drift) && OnlyParent(TreeOf(c.objs, Some(last)), last, o)
    requires o !in areas && drift[o] == 0 && TreeOf(c.objs, Some(last))[o].shadowed == Some(s)
    modifies c
    ensures Ready(c, Some(last), areas, rank, Drifted(drift, releases, s))
    ensures TreeOf(c.objs, Some(last)) == SplicedTree(old(TreeOf(c.objs, Some(last))), releases, last)
    ensures SameViews(old(c.frames), old(TreeOf(c.objs, Some(last))), c.frames, TreeOf(c.objs, Some(last)), rank, areas)
  {
    hide Unique, OnLists, Hashed, Owned, Pins, NoDup, Acyclic, Parents, SameViews, PinnedOnce;
    ghost var frames, tree := c.frames, TreeOf(c.objs, Some(last));
    ReferredInUse(tree, areas, rank, drift);
    SpliceAcyclic(tree, rank, releases, last, o);
    SpliceSound(tree, areas, rank, drift, releases, last, o);
    MigrateAll(c, o, last, areas, rank, drift);
    NoPages(c.frames, c.objs, o);
    PagesCounted(c.frames, c.objs, s);
    SplicedObjectsTree(c.frames, c.objs, releases, last, o, s);
    SplicedViews(c.frames, tree, areas, rank, drift, releases, last, o);
    ViewsTransitive(frames, tree, c.frames, tree, c.frames, SplicedTree(tree, releases, last), rank, areas);
    Unlink(c, last, o, s, releases);
  }

  lemma HeldTree(objs: Objects, x: nat)
    requires x in objs
    ensures TreeOf(objs[x := objs[x].(refcount := objs[x].refcount + 1)], Some(x)) == TreeOf(objs, None)
    ensures TreeOf(objs[x := objs[x].(refcount := objs[x].refcount - 1)], None) == TreeOf(objs, Some(x))
  {
  }

  /** The walk from top has come to last, which it holds a reference to; no area has seen a difference. */
  ghost predicate Walked(c: PageCache, frames0: Frames, tree0: Tree, drift0: multiset<nat>, drift: multiset<nat>,
                         rank: Ranks, releases: bool, areas: seq<nat>, top: nat, last: nat)
    requires Acyclic(tree0, rank) && forall i :: 0 <= i < |areas| ==> areas[i] in tree0
    reads c
  {
    var tree := TreeOf(c.objs, Some(last));
    && Ready(c, Some(last), areas, rank, drift)
    && top in areas && last in tree && tree[last].refs > 0 && (last in areas || tree[last].refs >= 2)
    && Walking(tree0, tree, rank, releases, top, last) && StillSettled(tree0, tree, rank, areas)
    && (WalkOk(tree0, rank, releases, top) ==> SameWalks(tree0, tree, drift0, drift, rank, releases, areas))
    && SameViews(frames0, tree0, c.frames, tree, rank, areas)
  }

  /** The loop's first branch. */
  method StepSplice(c: PageCache, last: nat, o: nat, releases: bool, ghost areas: seq<nat>, ghost rank: Ranks,
                    ghost drift: multiset<nat>,
                    ghost frames0: Frames, ghost tree0: Tree, ghost drift0: multiset<nat>, ghost top: nat)
    returns (ghost drift': multiset<nat>)
    requires Acyclic(tree0, rank) && forall i :: 0 <= i < |areas| ==> areas[i] in tree0
    requires Walked(c, frames0, tree0, drift0, drift, rank, releases, areas, top, last)
    requires o in c.objs && c.objs[last].shadowed == Some(o) && c.objs[o].shadowed.Some?
    requires c.objs[o].refcount - c.objs[o].nrespages == 1
    modifies c
    ensures Walked(c, frames0, tree0, drift0, drift', rank, releases, areas, top, last)
    ensures last in c.objs && c.objs[last].shadowed == old(c.objs[o].shadowed)
  {
    hide Unique, OnLists, Hashed, Owned, Pins, NoDup, Acyclic, Parents, SameViews, PinnedOnce, SameWalks, StillSettled,
         WalkOk;
    hide SettledTo;
    ghost var frames, tree := c.frames, TreeOf(c.objs, Some(last));
    SoleParentHere(c.objs, areas, rank, drift, last, o);
    var shadow := c.objs[o].shadowed.value;
    SpliceOut(c, last, o, shadow, releases, areas, rank, drift);
    drift' := Drifted(drift, releases, shadow);
    ghost var tree' := TreeOf(c.objs, Some(last));
    SpliceAcyclic(tree, rank, releases, last, o);
    assert tree'[last].shadowed == Some(shadow);
    WalkSplice(tree0, tree, rank, releases, top, last, o);
    OthersSplice(tree, drift, rank, releases, areas, last, o);
    SettledTransitive(tree0, tree, tree', rank, areas);
    if WalkOk(tree0, rank, releases, top) {
      WalksTransitive(tree0, tree, tree', drift0, drift, drift', rank, releases, areas);
    }
    ViewsTransitive(frames0, tree0, frames, tree, c.frames, tree', rank, areas);
  }

  lemma SoleParentHere(objs: Objects, areas: seq<nat>, rank: Ranks, drift: multiset<nat>, last: nat, o: nat)
    requires Sound(TreeOf(objs, Some(last)), areas, rank, drift)
    requires last in objs && o in objs && TreeOf(objs, Some(last))[last].refs > 0
    requires objs[last].shadowed == Some(o) && objs[o].shadowed.Some? && objs[o].refcount - objs[o].nrespages == 1
    ensures OnlyParent(TreeOf(objs, Some(last)), last, o) && o !in areas && drift[o] == 0
  {
    hide Parents;
    var tree := TreeOf(objs, Some(last));
    assert rank[o] < rank[last];
    SoleParent(tree, areas, rank, drift, last, o);
  }

  /** The daemon lets go of last and holds o. */
  ghost function HandedOver(objs: Objects, last: nat, o: nat): Objects
    requires last in objs && o in objs
  {
    var objs' := objs[o := objs[o].(refcount := objs[o].refcount + 1)];
    objs'[last := objs'[last].(refcount := objs'[last].refcount - 1)]
  }

  lemma Handover(objs: Objects, last: nat, o: nat)
    requires last in objs && o in objs && last != o
    ensures TreeOf(HandedOver(objs, last, o), Some(o)) == TreeOf(objs, Some(last))
  {
  }

  lemma NodesHere(objs: Objects, areas: seq<nat>, rank: Ranks, drift: multiset<nat>, last: nat, o: nat)
    requires Sound(TreeOf(objs, Some(last)), areas, rank, drift)
    requires last in objs && o in objs && TreeOf(objs, Some(last))[last].refs > 0 && objs[last].shadowed == Some(o)
    ensures last != o && objs[last].refcount - objs[last].nrespages > 1
    ensures last in TreeOf(objs, Some(last)) && o in TreeOf(objs, Some(last))
    ensures TreeOf(objs, Some(last))[last].shadowed == Some(o)
    ensures TreeOf(objs, Some(last))[o] == Node(objs[o].shadowed, objs[o].refcount - objs[o].nrespages)
    ensures TreeOf(objs, Some(last))[o].refs > 0
  {
    hide Parents;
    ReferredInUse(TreeOf(objs, Some(last)), areas, rank, drift);
  }

  lemma OnlyRefcounts(frames: Frames, objs: Objects, last: nat, o: nat)
    requires last in objs && o in objs && last != o && PinnedOnce(frames, objs)
    ensures PinnedOnce(frames, HandedOver(objs, last, o))
  {
  }

  /** The loop's second branch, for an object with two parents. */
  method StepDown(c: PageCache, last: nat, o: nat, releases: bool, ghost areas: seq<nat>, ghost rank: Ranks,
                  ghost drift: multiset<nat>,
                  ghost frames0: Frames, ghost tree0: Tree, ghost drift0: multiset<nat>, ghost top: nat)
    requires Acyclic(tree0, rank) && forall i :: 0 <= i < |areas| ==> areas[i] in tree0
    requires Walked(c, frames0, tree0, drift0, drift, rank, releases, areas, top, last)
    requires o in c.objs && c.objs[last].shadowed == Some(o) && c.objs[o].shadowed.Some?
    requires c.objs[o].refcount - c.objs[o].nrespages == 2
    modifies c`objs
    ensures Walked(c, frames0, tree0, drift0, drift, rank, releases, areas, top, o)
    ensures o in c.objs && c.objs[o].shadowed == old(c.objs[o].shadowed)
  {
    hide Unique, OnLists, Hashed, Owned, Pins, NoDup, Parents, SameViews, SameWalks, StillSettled, Walking, TreeOf,
         Acyclic,
         PinnedOnce, WalkOk;
    ghost var tree := TreeOf(c.objs, Some(last));
    TreeNode(c.objs, Some(last), last);
    NodesHere(c.objs, areas, rank, drift, last, o);
    PagesCounted(c.frames, c.objs, o);
    PagesCounted(c.frames, c.objs, last);
    OnlyRefcounts(c.frames, c.objs, last, o);
    WalkDown(tree0, tree, rank, releases, top, last, o);
    Handover(c.objs, last, o);
    Ref(c, o);
    Put(c, last);
    assert TreeOf(c.objs, Some(o)) == tree;
  }

  lemma WalkBegins(frames: Frames, objs: Objects, areas: seq<nat>, rank: Ranks, drift: multiset<nat>, releases: bool,
                   top: nat)
    requires Sound(TreeOf(objs, None), areas, rank, drift) && top in areas && Owned(frames, objs)
    ensures top in objs && objs[top].refcount > 0
    ensures var tree := TreeOf(objs, None);
            && tree[top].refs > 0
            && Walking(tree, tree, rank, releases, top, top) && StillSettled(tree, tree, rank, areas)
            && SameWalks(tree, tree, drift, drift, rank, releases, areas)
  {
    hide Parents;
    ReferredInUse(TreeOf(objs, None), areas, rank, drift);
    PagesCounted(frames, objs, top);
  }

  lemma PinnedOnceKept(frames: Frames, objs: Objects, x: nat, refcount: int)
    requires x in objs && PinnedOnce(frames, objs)
    ensures PinnedOnce(frames, objs[x := objs[x].(refcount := refcount)])
  {
  }

  lemma ChainDown(objs: Objects, held: Option<nat>, rank: Ranks, x: nat)
    requires Acyclic(TreeOf(objs, held), rank) && x in objs
    ensures x in TreeOf(objs, held) && objs[x].shadowed == TreeOf(objs, held)[x].shadowed
    ensures x in rank && (objs[x].shadowed.Some? ==>
              var s := objs[x].shadowed.value; s in objs && s in rank && rank[s] < rank[x])
    ensures held == Some(x) && TreeOf(objs, held)[x].refs > 0 ==> objs[x].refcount - objs[x].nrespages > 1
  {
    assert x in TreeOf(objs, held);
  }

  /** The walk down from the object of one area. */
  method Walk(c: PageCache, top: nat, releases: bool, ghost areas: seq<nat>, ghost rank: Ranks,
              ghost drift0: multiset<nat>)
    returns (ok: bool, ghost drift: multiset<nat>)
    requires Ready(c, None, areas, rank, drift0) && top in areas
    modifies c
    ensures ok <==> WalkOk(old(TreeOf(c.objs, None)), rank, releases, top)
    ensures ok ==> Ready(c, None, areas, rank, drift)
    ensures ok ==> SameViews(old(c.frames), old(TreeOf(c.objs, None)), c.frames, TreeOf(c.objs, None), rank, areas)
    ensures ok ==> SameWalks(old(TreeOf(c.objs, None)), TreeOf(c.objs, None), drift0, drift, rank, releases, areas)
    ensures ok ==> StillSettled(old(TreeOf(c.objs, None)), TreeOf(c.objs, None), rank, areas)
    ensures ok ==> Settled(TreeOf(c.objs, None), rank, top)
    ensures ok ==> LeftBehind(old(TreeOf(c.objs, None)), TreeOf(c.objs, None), drift0, drift, rank, releases, top)
  {
    hide Unique, OnLists, Hashed, Owned, Pins, NoDup, Acyclic, Parents, SameViews, PinnedOnce, SameWalks, StillSettled,
         Settled,
         WalkOk, Walking, WalkLeaves, TreeOf, LeftBehind;
    ghost var frames0, tree0 := c.frames, TreeOf(c.objs, None);
    drift := drift0;
    WalkBegins(c.frames, c.objs, areas, rank, drift0, releases, top);
    ViewsReflexive(frames0, tree0, rank, areas);
    HeldTree(c.objs, top);
    PinnedOnceKept(c.frames, c.objs, top, c.objs[top].refcount + 1);
    var last, o := top, c.objs[top].shadowed;
    Ref(c, last);
    ChainDown(c.objs, Some(last), rank, last);
    while o.Some? && c.objs[o.value].shadowed.Some?
      invariant last in c.objs && c.objs[last].shadowed == o && (o.Some? ==> o.value in c.objs && o.value in rank)
      invariant Walked(c, frames0, tree0, drift0, drift, rank, releases, areas, top, last)
      decreases if o.Some? then rank[o.value] + 1 else 0
    {
      var shadow := c.objs[o.value].shadowed;
      NodesHere(c.objs, areas, rank, drift, last, o.value);
      ChainDown(c.objs, Some(last), rank, o.value);
      if c.objs[o.value].refcount - c.objs[o.value].nrespages == 1 {
        drift := StepSplice(c, last, o.value, releases, areas, rank, drift, frames0, tree0, drift0, top);
      } else {
        if c.objs[o.value].refcount - c.objs[o.value].nrespages != 2 {
          WalkFails(tree0, TreeOf(c.objs, Some(last)), rank, releases, top, last, o.value);
          ok := false;
          return;
        }
        StepDown(c, last, o.value, releases, areas, rank, drift, frames0, tree0, drift0, top);
        last := o.value;
      }
      o := shadow;
      ChainDown(c.objs, Some(last), rank, last);
    }
    ghost var tree := TreeOf(c.objs, Some(last));
    ChainDown(c.objs, Some(last), rank, last);
    if o.Some? { ChainDown(c.objs, Some(last), rank, o.value); }
    WalkEnd(tree0, tree, rank, releases, top, last);
    WalkLeft(tree0, tree, drift0, drift, rank, releases, areas, top);
    HeldTree(c.objs, last);
    PinnedOnceKept(c.frames, c.objs, last, c.objs[last].refcount - 1);
    PagesCounted(c.frames, c.objs, last);
    Put(c, last);
    ok := true;
  }

  /** The areas are tried in order; those of processes that are not running are skipped. */
  method Pass(c: PageCache, areas: seq<nat>, running: seq<bool>, releases: bool, ghost rank: Ranks,
              ghost drift0: multiset<nat>)
    returns (ok: bool, ghost drift: multiset<nat>)
    requires Ready(c, None, areas, rank, drift0) && |running| == |areas|
    modifies c
    ensures ok ==> Ready(c, None, areas, rank, drift)
    ensures ok ==> SameViews(old(c.frames), old(TreeOf(c.objs, None)), c.frames, TreeOf(c.objs, None), rank, areas)
    ensures ok
       <==> forall i :: 0 <= i < |areas| && running[i] ==> WalkOk(old(TreeOf(c.objs, None)), rank, releases, areas[i])
    ensures ok ==> forall i :: 0 <= i < |areas| && running[i] ==> Settled(TreeOf(c.objs, None), rank, areas[i])
    ensures ok ==>
              forall i :: 0 <= i < |areas| && running[i] ==>
                LeftBehind(old(TreeOf(c.objs, None)), TreeOf(c.objs, None), drift0, drift, rank, releases, areas[i])
    ensures releases && ok ==> drift == drift0
  {
    hide Unique, OnLists, Hashed, Owned, Pins, NoDup, Acyclic, Parents, SameViews, PinnedOnce, Settled, WalkOk,
         WalkLeaves, TreeOf,
         LeftBehind;
    ghost var frames0, tree0 := c.frames, TreeOf(c.objs, None);
    ViewsReflexive(frames0, tree0, rank, areas);
    drift := drift0;
    var i := 0;
    while i < |areas|
      invariant 0 <= i <= |areas| && Ready(c, None, areas, rank, drift)
      invariant SameViews(frames0, tree0, c.frames, TreeOf(c.objs, None), rank, areas)
      invariant SameWalks(tree0, TreeOf(c.objs, None), drift0, drift, rank, releases, areas)
      invariant forall j :: 0 <= j < i && running[j] ==> Settled(TreeOf(c.objs, None), rank, areas[j])
      invariant forall j :: 0 <= j < i && running[j] ==> WalkOk(tree0, rank, releases, areas[j])
    {
      if running[i] {
        ghost var frames, tree, before := c.frames, TreeOf(c.objs, None), drift;
        ok, drift := Walk(c, areas[i], releases, areas, rank, drift);
        if !ok {
          return;
        }
        ViewsTransitive(frames0, tree0, frames, tree, c.frames, TreeOf(c.objs, None), rank, areas);
        WalksTransitive(tree0, tree, TreeOf(c.objs, None), drift0, before, drift, rank, releases, areas);
      }
      i := i + 1;
    }
    forall j | 0 <= j < |areas| && running[j]
      ensures LeftBehind(tree0, TreeOf(c.objs, None), drift0, drift, rank, releases, areas[j])
    {
      WalkLeft(tree0, TreeOf(c.objs, None), drift0, drift, rank, releases, areas, areas[j]);
    }
    ok := true;
  }

  lemma WalkLeft(tree0: Tree, tree: Tree, drift0: multiset<nat>, drift: multiset<nat>, rank: Ranks, releases: bool,
                 areas: seq<nat>, top: nat)
    requires Acyclic(tree0, rank) && Acyclic(tree, rank) && top in areas
    requires forall i :: 0 <= i < |areas| ==> areas[i] in tree0 && areas[i] in tree
    requires Settled(tree, rank, top) && SameWalks(tree0, tree, drift0, drift, rank, releases, areas)
    ensures LeftBehind(tree0, tree, drift0, drift, rank, releases, top)
  {
    hide WalkLeaves, WalkOk, SingleInner, Acyclic, Settled;
    var i :| 0 <= i < |areas| && areas[i] == top;
    forall y ensures SingleInner(tree, drift, rank, top, y) <==> WalkLeaves(tree0, drift0, rank, releases, top, y) {
      SettledLeaves(tree, drift, rank, releases, top, y);
      assert WalkLeaves(tree0, drift0, rank, releases, areas[i], y)
        <==> WalkLeaves(tree, drift, rank, releases, areas[i], y);
    }
  }

  /** The objects that count as having a single parent are those that have one. */
  lemma SinglesHaveOneParent(tree: Tree, areas: seq<nat>, rank: Ranks, drift: multiset<nat>, x: nat, y: nat)
    requires Sound(tree, areas, rank, drift) && x in tree && Between(tree, rank, x, y)
    ensures SingleInner(tree, drift, rank, x, y) <==> |Parents(tree, areas, y)| == 1
  {
    BetweenInTree(tree, rank, x, y);
  }

  lemma {:induction false} BetweenInTree(tree: Tree, rank: Ranks, x: nat, y: nat)
    requires Acyclic(tree, rank) && x in tree && Between(tree, rank, x, y)
    ensures y in tree
    decreases rank[x]
  {
    var s := tree[x].shadowed.value;
    if y != s { BetweenInTree(tree, rank, s, y); }
  }

  /** After a pass from exact counts with references released, no walked chain has a single-parent object. */
  lemma ReleasedNoneLeft(tree0: Tree, tree: Tree, areas: seq<nat>, rank: Ranks, drift: multiset<nat>, x: nat, y: nat)
    requires Acyclic(tree0, rank) && x in tree0 && Sound(tree, areas, rank, drift) && x in tree
    requires LeftBehind(tree0, tree, multiset{}, drift, rank, true, x) && Between(tree, rank, x, y)
    ensures |Parents(tree, areas, y)| != 1
  {
    hide Parents;
    SinglesHaveOneParent(tree, areas, rank, drift, x, y);
    ReleasingLeavesNone(tree0, rank, tree0[x].shadowed, y);
    assert !WalkLeaves(tree0, multiset{}, rank, true, x, y);
  }

  /**
   After a pass from exact counts without releasing, a walked chain has a single-parent object exactly if two objects
   in a row had a single reference each before.
   */
  lemma UnreleasedPairsLeft(tree0: Tree, tree: Tree, areas: seq<nat>, rank: Ranks, drift: multiset<nat>, x: nat)
    requires Sound(tree0, areas, rank, multiset{}) && Sound(tree, areas, rank, drift) && x in areas
    requires LeftBehind(tree0, tree, multiset{}, drift, rank, false, x)
    ensures (exists y :: Between(tree, rank, x, y) && |Parents(tree, areas, y)| == 1)
       <==> exists j: nat :: PairAt(tree0, Inner(tree0, rank, tree0[x].shadowed), j)
  {
    hide Parents, PairAt, Inner, WalkLeaves, Acyclic;
    ReferredInUse(tree0, areas, rank, multiset{});
    UnreleasedPairs(tree0, rank, x);
    if y :| Between(tree, rank, x, y) && |Parents(tree, areas, y)| == 1 {
      SinglesHaveOneParent(tree, areas, rank, drift, x, y);
      assert WalkLeaves(tree0, multiset{}, rank, false, x, y);
    }
    if y :| WalkLeaves(tree0, multiset{}, rank, false, x, y) {
      assert SingleInner(tree, drift, rank, x, y);
      SinglesHaveOneParent(tree, areas, rank, drift, x, y);
    }
  }
}
