/**
 Shadow objects: the read view through a chain (kernel/vm/shadow.c) and the
 daemon that splices unnecessary objects out of the chains (kernel/vm/shadowd.c).
 */
module Shadow {
  import opened Options
  import opened Pframe

  /** What the chains are made of: the object shadowed, and the references that are not the object's own pages'. */
  datatype Node = Node(shadowed: Option<nat>, refs: int)

  type Tree = map<nat, Node>
  type Ranks = map<nat, nat>

  /** The chains of the objects, not counting the reference the daemon holds. */
  function TreeOf(objs: Objects, held: Option<nat>): Tree
  {
    map x | x in objs ::
      Node(objs[x].shadowed, objs[x].refcount - objs[x].nrespages - (if held == Some(x) then 1 else 0))
  }

  /** Chains end: what an object shadows has a smaller rank. */
  ghost predicate Acyclic(tree: Tree, rank: Ranks)
  {
    forall x :: x in tree ==> x in rank && (tree[x].shadowed.Some? ==>
      tree[x].shadowed.value in tree && tree[x].shadowed.value in rank && rank[tree[x].shadowed.value] < rank[x])
  }

  /** Looking for page pagenum from x down the chain, the first page found is f. */
  ghost predicate Sees(frames: Frames, tree: Tree, rank: Ranks, x: nat, pagenum: nat, f: nat)
    requires Acyclic(tree, rank) && x in tree
    decreases rank[x]
  {
    || HasPage(frames, x, pagenum, f)
    || ((forall g: nat :: !HasPage(frames, x, pagenum, g)) && tree[x].shadowed.Some?
        && Sees(frames, tree, rank, tree[x].shadowed.value, pagenum, f))
  }

  /** shadow_lookuppage: for reading, the page seen; for writing it always fails. */
  method LookupPage(c: PageCache, o: nat, pagenum: nat, forwrite: bool, ghost rank: Ranks) returns (r: Option<nat>)
    requires c.Valid() && Acyclic(TreeOf(c.objs, None), rank) && o in c.objs
    modifies c`allocList
    ensures c.Valid()
    ensures forwrite ==> r == None
    ensures !forwrite ==> forall f: nat :: r == Some(f) <==> Sees(c.frames, TreeOf(c.objs, None), rank, o, pagenum, f)
  {
    if forwrite {
      return None;
    }
    ghost var tree := TreeOf(c.objs, None);
    var cur := Some(o);
    while cur.Some?
      invariant c.Valid()
      invariant cur.Some? ==> cur.value in c.objs && forall f: nat ::
                  Sees(c.frames, tree, rank, o, pagenum, f) <==> Sees(c.frames, tree, rank, cur.value, pagenum, f)
      invariant cur.None? ==> forall f: nat :: !Sees(c.frames, tree, rank, o, pagenum, f)
      decreases if cur.Some? then rank[cur.value] + 1 else 0
    {
      r := c.GetResident(cur.value, pagenum);
      if r.Some? {
        SeesOwn(c.frames, tree, rank, cur.value, pagenum, r.value);
        OnePage(c, cur.value, pagenum, r.value);
        return;
      }
      assert tree[cur.value].shadowed == c.objs[cur.value].shadowed;
      cur := c.objs[cur.value].shadowed;
    }
    r := None;
  }

  lemma SeesOwn(frames: Frames, tree: Tree, rank: Ranks, x: nat, pagenum: nat, f: nat)
    requires Acyclic(tree, rank) && x in tree && HasPage(frames, x, pagenum, f)
    ensures forall g: nat :: Sees(frames, tree, rank, x, pagenum, g) <==> HasPage(frames, x, pagenum, g)
  {
  }

  lemma OnePage(c: PageCache, o: nat, pagenum: nat, f: nat)
    requires c.Valid() && HasPage(c.frames, o, pagenum, f)
    ensures forall g: nat :: HasPage(c.frames, o, pagenum, g) <==> g == f
  {
  }

  // References

  datatype Parent = AreaParent(index: nat) | ObjectParent(obj: nat)

  /** The areas and the objects in use that refer to x directly. */
  ghost function Parents(tree: Tree, areas: seq<nat>, x: nat): set<Parent>
  {
    (set i: nat | i < |areas| && areas[i] == x :: AreaParent(i)) +
    (set p | p in tree && tree[p].refs > 0 && tree[p].shadowed == Some(x) :: ObjectParent(p))
  }

  ghost predicate Refers(tree: Tree, areas: seq<nat>, p: Parent, x: nat)
  {
    match p
    case AreaParent(i) => i < |areas| && areas[i] == x
    case ObjectParent(q) => q in tree && tree[q].refs > 0 && tree[q].shadowed == Some(x)
  }

  lemma ParentsRefer(tree: Tree, areas: seq<nat>, x: nat)
    ensures forall p :: p in Parents(tree, areas, x) <==> Refers(tree, areas, p, x)
  {
  }

  /** Every parent holds a reference; drift holds the references that no parent accounts for. */
  ghost predicate Sound(tree: Tree, areas: seq<nat>, rank: Ranks, drift: multiset<nat>)
  {
    && Acyclic(tree, rank)
    && (forall i :: 0 <= i < |areas| ==> areas[i] in tree)
    && (forall x :: x in tree ==> |Parents(tree, areas, x)| + drift[x] == tree[x].refs)
  }

  /** Whatever an area or an object in use refers to is in use. */
  lemma ReferredInUse(tree: Tree, areas: seq<nat>, rank: Ranks, drift: multiset<nat>)
    requires Sound(tree, areas, rank, drift)
    ensures forall i :: 0 <= i < |areas| ==> tree[areas[i]].refs > 0
    ensures InUseShadowsInUse(tree)
  {
    forall i: nat | i < |areas| ensures tree[areas[i]].refs > 0 {
      ReferenceCounts(tree, areas, drift, AreaParent(i), areas[i]);
    }
    forall x | x in tree && tree[x].refs > 0 && tree[x].shadowed.Some? ensures tree[tree[x].shadowed.value].refs > 0 {
      ReferenceCounts(tree, areas, drift, ObjectParent(x), tree[x].shadowed.value);
    }
  }

  lemma ReferenceCounts(tree: Tree, areas: seq<nat>, drift: multiset<nat>, p: Parent, x: nat)
    requires p in Parents(tree, areas, x) && x in tree && |Parents(tree, areas, x)| + drift[x] == tree[x].refs
    ensures tree[x].refs > 0
  {
    hide Parents;
    assert Parents(tree, areas, x) != {};
  }

  lemma TwoParents(tree: Tree, areas: seq<nat>, drift: multiset<nat>, p: Parent, q: Parent, x: nat)
    requires Refers(tree, areas, p, x) && Refers(tree, areas, q, x) && p != q
    requires x in tree && |Parents(tree, areas, x)| + drift[x] == tree[x].refs
    ensures tree[x].refs >= 2
  {
    hide Parents;
    ParentsRefer(tree, areas, x);
    if |Parents(tree, areas, x)| <= 1 { OneElement(Parents(tree, areas, x), p, q); }
  }

  ghost predicate InUseShadowsInUse(tree: Tree)
  {
    forall x :: x in tree && tree[x].refs > 0 && tree[x].shadowed.Some? ==>
      tree[x].shadowed.value in tree && tree[tree[x].shadowed.value].refs > 0
  }

  /** Only last, among the objects in use, shadows o, and o shadows another object. */
  ghost predicate OnlyParent(tree: Tree, last: nat, o: nat)
  {
    && last in tree && o in tree && last != o && tree[last].shadowed == Some(o) && tree[last].refs > 0
    && tree[o].refs == 1 && tree[o].shadowed.Some? && tree[o].shadowed.value in tree
    && forall q :: q in tree && tree[q].refs > 0 && q != last ==> tree[q].shadowed != Some(o)
  }

  /** An object with one reference, which last shadows, is nobody else's. */
  lemma SoleParent(tree: Tree, areas: seq<nat>, rank: Ranks, drift: multiset<nat>, last: nat, o: nat)
    requires Sound(tree, areas, rank, drift)
    requires last in tree && tree[last].refs > 0 && tree[last].shadowed == Some(o) && tree[o].refs == 1
    requires tree[o].shadowed.Some?
    ensures OnlyParent(tree, last, o) && o !in areas && drift[o] == 0 && Parents(tree, areas, o) == {ObjectParent(last)}
  {
    hide Parents;
    var ps := Parents(tree, areas, o);
    ParentsRefer(tree, areas, o);
    assert Refers(tree, areas, ObjectParent(last), o);
    forall p | Refers(tree, areas, p, o) ensures p == ObjectParent(last) { OneElement(ps, p, ObjectParent(last)); }
    assert ps == {ObjectParent(last)};
    assert forall q :: q in tree && tree[q].refs > 0 && tree[q].shadowed == Some(o) ==>
             Refers(tree, areas, ObjectParent(q), o);
    assert forall i: nat :: i < |areas| && areas[i] == o ==> Refers(tree, areas, AreaParent(i), o);
  }

  lemma OneElement<T>(s: set<T>, x: T, y: T)
    requires |s| <= 1 && x in s && y in s
    ensures x == y
  {
    assert |s - {x}| == |s| - 1;
    assert s - {x} == {};
  }

  /** o leaves the chain below last; its reference to what it shadowed is dropped too if it is released. */
  function SplicedTree(tree: Tree, releases: bool, last: nat): Tree
    requires last in tree && tree[last].shadowed.Some? && tree[last].shadowed.value in tree
    requires var o := tree[last].shadowed.value; tree[o].shadowed.Some? && tree[o].shadowed.value in tree
  {
    var o := tree[last].shadowed.value;
    var s := tree[o].shadowed.value;
    tree[last := tree[last].(shadowed := Some(s))][o := tree[o].(refs := 0)]
        [s := tree[s].(refs := tree[s].refs + (if releases then 0 else 1))]
  }

  lemma SplicedParents(tree: Tree, areas: seq<nat>, releases: bool, last: nat, o: nat, x: nat)
    requires InUseShadowsInUse(tree) && OnlyParent(tree, last, o) && o !in areas
    requires tree[o].shadowed.value != o && tree[o].shadowed.value != last
    ensures var ps, ps' := Parents(tree, areas, x), Parents(SplicedTree(tree, releases, last), areas, x);
            if x == o then ps' == {}
            else if tree[o].shadowed == Some(x) then
              ObjectParent(o) in ps && ObjectParent(last) !in ps && ps' == ps - {ObjectParent(o)} + {ObjectParent(last)}
            else ps' == ps
  {
    hide Parents;
    var tree' := SplicedTree(tree, releases, last);
    ParentsRefer(tree, areas, x);
    ParentsRefer(tree', areas, x);
    forall p: Parent | p.AreaParent? || (p.obj != last && p.obj != o)
      ensures Refers(tree', areas, p, x) <==> Refers(tree, areas, p, x)
    {
    }
  }

  lemma SpliceAcyclic(tree: Tree, rank: Ranks, releases: bool, last: nat, o: nat)
    requires Acyclic(tree, rank) && OnlyParent(tree, last, o)
    ensures Acyclic(SplicedTree(tree, releases, last), rank)
    ensures tree[o].shadowed.value != o && tree[o].shadowed.value != last
  {
    assert rank[o] < rank[last] && rank[tree[o].shadowed.value] < rank[o];
  }

  /** The counts stay right, except that an unreleased reference drifts. */
  lemma SpliceSound(tree: Tree, areas: seq<nat>, rank: Ranks, drift: multiset<nat>, releases: bool, last: nat, o: nat)
    requires Sound(tree, areas, rank, drift) && OnlyParent(tree, last, o) && o !in areas && drift[o] == 0
    ensures Sound(SplicedTree(tree, releases, last), areas, rank, Drifted(drift, releases, tree[o].shadowed.value))
  {
    hide Parents, Acyclic;
    SpliceAcyclic(tree, rank, releases, last, o);
    ReferredInUse(tree, areas, rank, drift);
    var tree', drift' := SplicedTree(tree, releases, last), Drifted(drift, releases, tree[o].shadowed.value);
    forall x | x in tree' ensures |Parents(tree', areas, x)| + drift'[x] == tree'[x].refs {
      SplicedParents(tree, areas, releases, last, o, x);
    }
  }

  function Drifted(drift: multiset<nat>, releases: bool, s: nat): multiset<nat>
  {
    if releases then drift else drift + multiset{s}
  }

  // Views

  /** Every area sees the same page, or none, at every page number. */
  ghost predicate SameViews(frames: Frames, tree: Tree, frames': Frames, tree': Tree, rank: Ranks, areas: seq<nat>)
    requires Acyclic(tree, rank) && Acyclic(tree', rank)
    requires forall i :: 0 <= i < |areas| ==> areas[i] in tree && areas[i] in tree'
  {
    forall i, pagenum, f :: 0 <= i < |areas| ==>
      (Sees(frames, tree, rank, areas[i], pagenum, f) <==> Sees(frames', tree', rank, areas[i], pagenum, f))
  }

  ghost predicate Moved(frames: Frames, frames': Frames, last: nat, pf: nat)
    requires pf in frames
  {
    if exists g :: HasPage(frames, last, frames[pf].pagenum, g) then frames' == frames - {pf}
    else frames' == frames[pf := frames[pf].(obj := last)]
  }

  /** Moving a page up to the only object above, or dropping it when it is hidden there, shows to nobody else. */
  lemma {:induction false} MoveKeepsView(frames: Frames, frames': Frames, tree: Tree, rank: Ranks,
                                         last: nat, o: nat, pf: nat, x: nat, pagenum: nat, f: nat)
    requires Acyclic(tree, rank) && InUseShadowsInUse(tree)
    requires OnlyParent(tree, last, o) && Unique(frames) && pf in frames && frames[pf].obj == o
    requires Moved(frames, frames', last, pf)
    requires x in tree && tree[x].refs > 0 && x != o
    ensures Sees(frames, tree, rank, x, pagenum, f) <==> Sees(frames', tree, rank, x, pagenum, f)
    decreases rank[x]
  {
    if x != last {
      assert forall g :: HasPage(frames, x, pagenum, g) <==> HasPage(frames', x, pagenum, g);
      if tree[x].shadowed.Some? {
        MoveKeepsView(frames, frames', tree, rank, last, o, pf, tree[x].shadowed.value, pagenum, f);
      }
    } else {
      MoveAtParent(frames, frames', tree, rank, last, o, pf, pagenum, f);
    }
  }

  lemma MoveAtParent(frames: Frames, frames': Frames, tree: Tree, rank: Ranks,
                     last: nat, o: nat, pf: nat, pagenum: nat, f: nat)
    requires Acyclic(tree, rank) && InUseShadowsInUse(tree)
    requires OnlyParent(tree, last, o) && Unique(frames) && pf in frames && frames[pf].obj == o
    requires Moved(frames, frames', last, pf)
    ensures Sees(frames, tree, rank, last, pagenum, f) <==> Sees(frames', tree, rank, last, pagenum, f)
    decreases rank[last], 0
  {
    if pagenum == frames[pf].pagenum {
      if g :| HasPage(frames, last, pagenum, g) {
        assert HasPage(frames', last, pagenum, g);
      } else {
        assert HasPage(frames', last, pagenum, pf);
        assert HasPage(frames, o, pagenum, pf);
      }
    } else {
      assert forall g :: HasPage(frames, last, pagenum, g) <==> HasPage(frames', last, pagenum, g);
      assert forall g :: HasPage(frames, o, pagenum, g) <==> HasPage(frames', o, pagenum, g);
      MoveKeepsView(frames, frames', tree, rank, last, o, pf, tree[o].shadowed.value, pagenum, f);
    }
  }

  lemma MovedViews(frames: Frames, frames': Frames, tree: Tree, areas: seq<nat>, rank: Ranks, drift: multiset<nat>,
                   last: nat, o: nat, pf: nat)
    requires Sound(tree, areas, rank, drift) && OnlyParent(tree, last, o) && o !in areas
    requires Unique(frames) && pf in frames && frames[pf].obj == o && Moved(frames, frames', last, pf)
    ensures SameViews(frames, tree, frames', tree, rank, areas)
  {
    ReferredInUse(tree, areas, rank, drift);
    forall i, pagenum, f | 0 <= i < |areas|
      ensures Sees(frames, tree, rank, areas[i], pagenum, f) <==> Sees(frames', tree, rank, areas[i], pagenum, f)
    {
      MoveKeepsView(frames, frames', tree, rank, last, o, pf, areas[i], pagenum, f);
    }
  }

  /** Splicing an object without pages out of a chain leaves every other view as it was. */
  lemma {:induction false} SpliceKeepsView(frames: Frames, tree: Tree, rank: Ranks, releases: bool,
                                           last: nat, o: nat, x: nat, pagenum: nat, f: nat)
    requires Acyclic(tree, rank) && InUseShadowsInUse(tree) && OnlyParent(tree, last, o)
    requires Acyclic(SplicedTree(tree, releases, last), rank)
    requires forall g :: g in frames ==> frames[g].obj != o
    requires x in tree && tree[x].refs > 0 && x != o
    ensures Sees(frames, tree, rank, x, pagenum, f)
       <==> Sees(frames, SplicedTree(tree, releases, last), rank, x, pagenum, f)
    decreases rank[x]
  {
    var next := if x == last then tree[o].shadowed else tree[x].shadowed;
    assert SplicedTree(tree, releases, last)[x].shadowed == next;
    assert forall g :: !HasPage(frames, o, pagenum, g);
    if next.Some? {
      assert next.value != o;
      SpliceKeepsView(frames, tree, rank, releases, last, o, next.value, pagenum, f);
    }
  }

  lemma SplicedViews(frames: Frames, tree: Tree, areas: seq<nat>, rank: Ranks, drift: multiset<nat>, releases: bool,
                     last: nat, o: nat)
    requires Sound(tree, areas, rank, drift) && OnlyParent(tree, last, o) && o !in areas
    requires Acyclic(SplicedTree(tree, releases, last), rank)
    requires forall g :: g in frames ==> frames[g].obj != o
    ensures SameViews(frames, tree, frames, SplicedTree(tree, releases, last), rank, areas)
  {
    ReferredInUse(tree, areas, rank, drift);
    forall i, pagenum, f | 0 <= i < |areas|
      ensures Sees(frames, tree, rank, areas[i], pagenum, f)
         <==> Sees(frames, SplicedTree(tree, releases, last), rank, areas[i], pagenum, f)
    {
      SpliceKeepsView(frames, tree, rank, releases, last, o, areas[i], pagenum, f);
    }
  }
}
