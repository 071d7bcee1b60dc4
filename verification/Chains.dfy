/**
 What one pass of the shadow daemon does to a chain of shadow objects, told on the
 tree of objects alone: which chains it can walk without failing an assertion and
 which objects it leaves behind.
 */
module Chains {
  import opened Options
  import opened Shadow

  /** y lies strictly between x and the bottom of x's chain. */
  ghost predicate Between(tree: Tree, rank: Ranks, x: nat, y: nat)
    requires Acyclic(tree, rank) && x in tree
    decreases rank[x]
  {
    tree[x].shadowed.Some? &&
    var s := tree[x].shadowed.value;
    tree[s].shadowed.Some? && (y == s || Between(tree, rank, s, y))
  }

  /** From x down, no object strictly above the bottom is left with a single reference. */
  ghost predicate Settled(tree: Tree, rank: Ranks, x: nat)
    requires Acyclic(tree, rank) && x in tree
    decreases rank[x]
  {
    tree[x].shadowed.Some? ==>
    var s := tree[x].shadowed.value;
    tree[s].shadowed.Some? ==> tree[s].refs != 1 && Settled(tree, rank, s)
  }

  lemma {:induction false} SettledMeans(tree: Tree, rank: Ranks, x: nat)
    requires Acyclic(tree, rank) && x in tree
    ensures Settled(tree, rank, x) <==> forall y :: Between(tree, rank, x, y) ==> y in tree && tree[y].refs != 1
    decreases rank[x]
  {
    if tree[x].shadowed.Some? {
      var s := tree[x].shadowed.value;
      SettledMeans(tree, rank, s);
      if tree[s].shadowed.Some? {
        assert Between(tree, rank, x, s);
        assert forall y :: Between(tree, rank, s, y) ==> Between(tree, rank, x, y);
      }
    }
  }

  /** The part of the chain from x down to last is settled. */
  ghost predicate SettledTo(tree: Tree, rank: Ranks, x: nat, last: nat)
    requires Acyclic(tree, rank) && x in tree
    decreases rank[x]
  {
    || x == last
    || (tree[x].shadowed.Some? &&
        var s := tree[x].shadowed.value;
        tree[s].shadowed.Some? && tree[s].refs != 1 && SettledTo(tree, rank, s, last))
  }

  /**
   The assertion on the number of parents never fails below o: each object has one or two references when it is
   reached, where an object spliced out above leaves one more if its own reference is not released.
   */
  ghost predicate Survives(tree: Tree, rank: Ranks, releases: bool, o: Option<nat>, more: int)
    requires Acyclic(tree, rank) && (o.Some? ==> o.value in tree)
    decreases if o.Some? then rank[o.value] + 1 else 0
  {
    o.Some? && tree[o.value].shadowed.Some? ==>
    var n := tree[o.value].refs + more;
    1 <= n <= 2 && Survives(tree, rank, releases, tree[o.value].shadowed, if n == 1 && !releases then 1 else 0)
  }

  /** When references are released, walking succeeds exactly if nothing between top and bottom has another count. */
  lemma {:induction false} SurvivesReleasing(tree: Tree, rank: Ranks, x: nat)
    requires Acyclic(tree, rank) && x in tree
    ensures Survives(tree, rank, true, tree[x].shadowed, 0)
       <==> forall y :: Between(tree, rank, x, y) ==> y in tree && 1 <= tree[y].refs <= 2
    decreases rank[x]
  {
    if tree[x].shadowed.Some? {
      var s := tree[x].shadowed.value;
      SurvivesReleasing(tree, rank, s);
      if tree[s].shadowed.Some? {
        assert Between(tree, rank, x, s);
        assert forall y :: Between(tree, rank, s, y) ==> Between(tree, rank, x, y);
      }
    }
  }

  /** Walking down from o leaves y behind, which has a single parent. */
  ghost predicate Leaves(tree: Tree, drift: multiset<nat>, rank: Ranks, releases: bool, o: Option<nat>, more: int,
                         y: nat)
    requires Acyclic(tree, rank) && (o.Some? ==> o.value in tree)
    decreases if o.Some? then rank[o.value] + 1 else 0
  {
    o.Some? && tree[o.value].shadowed.Some? &&
    var n := tree[o.value].refs + more;
    || (o.value == y && n != 1 && tree[y].refs - drift[y] == 1)
    || Leaves(tree, drift, rank, releases, tree[o.value].shadowed, if n == 1 && !releases then 1 else 0, y)
  }

  /** Not so if references are released and were exact. */
  lemma {:induction false} ReleasingLeavesNone(tree: Tree, rank: Ranks, o: Option<nat>, y: nat)
    requires Acyclic(tree, rank) && (o.Some? ==> o.value in tree)
    ensures !Leaves(tree, multiset{}, rank, true, o, 0, y)
    decreases if o.Some? then rank[o.value] + 1 else 0
  {
    if o.Some? && tree[o.value].shadowed.Some? { ReleasingLeavesNone(tree, rank, tree[o.value].shadowed, y); }
  }

  ghost predicate WalkOk(tree: Tree, rank: Ranks, releases: bool, x: nat)
    requires Acyclic(tree, rank) && x in tree
  {
    Survives(tree, rank, releases, tree[x].shadowed, 0)
  }

  ghost predicate WalkLeaves(tree: Tree, drift: multiset<nat>, rank: Ranks, releases: bool, x: nat, y: nat)
    requires Acyclic(tree, rank) && x in tree
  {
    Leaves(tree, drift, rank, releases, tree[x].shadowed, 0, y)
  }

  // The same in terms of the counts along the chain, for references that are not released

  /** The objects strictly above the bottom, from o down. */
  ghost function Inner(tree: Tree, rank: Ranks, o: Option<nat>): (ids: seq<nat>)
    requires Acyclic(tree, rank) && (o.Some? ==> o.value in tree)
    ensures forall i :: 0 <= i < |ids| ==> ids[i] in tree
    decreases if o.Some? then rank[o.value] + 1 else 0
  {
    if o.Some? && tree[o.value].shadowed.Some? then [o.value] + Inner(tree, rank, tree[o.value].shadowed) else []
  }

  lemma {:induction false} InnerMeans(tree: Tree, rank: Ranks, x: nat, y: nat)
    requires Acyclic(tree, rank) && x in tree
    ensures y in Inner(tree, rank, tree[x].shadowed) <==> Between(tree, rank, x, y)
    decreases rank[x]
  {
    if tree[x].shadowed.Some? { InnerMeans(tree, rank, tree[x].shadowed.value, y); }
  }

  ghost predicate InTree(tree: Tree, ids: seq<nat>) { forall i :: 0 <= i < |ids| ==> ids[i] in tree }

  /** How many objects directly above the j-th have a single reference. */
  ghost function Ones(tree: Tree, ids: seq<nat>, j: nat): nat
    requires InTree(tree, ids) && j <= |ids|
  {
    if j == 0 || tree[ids[j - 1]].refs != 1 then 0 else Ones(tree, ids, j - 1) + 1
  }

  /** One reference, or two and an even number of objects with one directly above. */
  ghost predicate Passable(tree: Tree, ids: seq<nat>, j: nat)
    requires InTree(tree, ids) && j < |ids|
  {
    tree[ids[j]].refs == 1 || (tree[ids[j]].refs == 2 && Ones(tree, ids, j) % 2 == 0)
  }

  /** One reference, and an odd number of objects with one directly above. */
  ghost predicate LeftAt(tree: Tree, ids: seq<nat>, j: nat)
    requires InTree(tree, ids) && j < |ids|
  {
    tree[ids[j]].refs == 1 && Ones(tree, ids, j) % 2 == 1
  }

  ghost predicate AllReferred(tree: Tree, ids: seq<nat>)
  {
    forall i :: 0 <= i < |ids| ==> ids[i] in tree && tree[ids[i]].refs >= 1
  }

  lemma {:induction false} SurvivesFrom(tree: Tree, rank: Ranks, ids: seq<nat>, j: nat, o: Option<nat>)
    requires Acyclic(tree, rank) && (o.Some? ==> o.value in tree) && InTree(tree, ids) && AllReferred(tree, ids)
    requires j <= |ids| && Inner(tree, rank, o) == ids[j..]
    ensures Survives(tree, rank, false, o, Ones(tree, ids, j) % 2)
       <==> forall i :: j <= i < |ids| ==> Passable(tree, ids, i)
    decreases |ids| - j
  {
    if j < |ids| {
      assert ids[j] == ids[j..][0] && ids[j..][1..] == ids[j + 1..];
      SurvivesFrom(tree, rank, ids, j + 1, tree[ids[j]].shadowed);
      var next := Survives(tree, rank, false, tree[ids[j]].shadowed, Ones(tree, ids, j + 1) % 2);
      assert Survives(tree, rank, false, o, Ones(tree, ids, j) % 2) <==> Passable(tree, ids, j) && next;
    }
  }

  lemma {:induction false} LeavesFrom(tree: Tree, rank: Ranks, ids: seq<nat>, j: nat, o: Option<nat>, y: nat)
    requires Acyclic(tree, rank) && (o.Some? ==> o.value in tree) && InTree(tree, ids) && AllReferred(tree, ids)
    requires j <= |ids| && Inner(tree, rank, o) == ids[j..]
    ensures Leaves(tree, multiset{}, rank, false, o, Ones(tree, ids, j) % 2, y)
       <==> exists i :: j <= i < |ids| && ids[i] == y && LeftAt(tree, ids, i)
    decreases |ids| - j
  {
    if j < |ids| {
      assert ids[j] == ids[j..][0] && ids[j..][1..] == ids[j + 1..];
      LeavesFrom(tree, rank, ids, j + 1, tree[ids[j]].shadowed, y);
    }
  }

  lemma {:induction false} InnerReferred(tree: Tree, rank: Ranks, x: nat)
    requires Acyclic(tree, rank) && InUseShadowsInUse(tree) && x in tree && tree[x].refs > 0
    ensures AllReferred(tree, Inner(tree, rank, tree[x].shadowed))
    decreases rank[x]
  {
    if tree[x].shadowed.Some? { InnerReferred(tree, rank, tree[x].shadowed.value); }
  }

  /** The walk succeeds exactly if every object passed has one reference, or two below an even run of single ones. */
  lemma UnreleasedWalkOk(tree: Tree, rank: Ranks, x: nat)
    requires Acyclic(tree, rank) && InUseShadowsInUse(tree) && x in tree && tree[x].refs > 0
    ensures var ids := Inner(tree, rank, tree[x].shadowed);
            WalkOk(tree, rank, false, x) <==> forall i :: 0 <= i < |ids| ==> Passable(tree, ids, i)
  {
    var ids := Inner(tree, rank, tree[x].shadowed);
    InnerReferred(tree, rank, x);
    assert ids[0..] == ids;
    SurvivesFrom(tree, rank, ids, 0, tree[x].shadowed);
  }

  /** With exact counts, it leaves every second object of a run of single ones. */
  lemma UnreleasedLeaves(tree: Tree, rank: Ranks, x: nat, y: nat)
    requires Acyclic(tree, rank) && InUseShadowsInUse(tree) && x in tree && tree[x].refs > 0
    ensures var ids := Inner(tree, rank, tree[x].shadowed);
            WalkLeaves(tree, multiset{}, rank, false, x, y)
            <==> exists i :: 0 <= i < |ids| && ids[i] == y && LeftAt(tree, ids, i)
  {
    var ids := Inner(tree, rank, tree[x].shadowed);
    InnerReferred(tree, rank, x);
    assert ids[0..] == ids;
    LeavesFrom(tree, rank, ids, 0, tree[x].shadowed, y);
  }

  ghost predicate PairAt(tree: Tree, ids: seq<nat>, j: nat)
    requires InTree(tree, ids)
  {
    j + 1 < |ids| && tree[ids[j]].refs == 1 && tree[ids[j + 1]].refs == 1
  }

  /** So something is left behind exactly if two objects in a row have a single reference each. */
  lemma UnreleasedPairs(tree: Tree, rank: Ranks, x: nat)
    requires Acyclic(tree, rank) && InUseShadowsInUse(tree) && x in tree && tree[x].refs > 0
    ensures (exists y :: WalkLeaves(tree, multiset{}, rank, false, x, y))
       <==> exists j: nat :: PairAt(tree, Inner(tree, rank, tree[x].shadowed), j)
  {
    hide WalkLeaves, Inner, LeftAt, PairAt;
    var ids := Inner(tree, rank, tree[x].shadowed);
    if y :| WalkLeaves(tree, multiset{}, rank, false, x, y) {
      UnreleasedLeaves(tree, rank, x, y);
      var i :| 0 <= i < |ids| && ids[i] == y && LeftAt(tree, ids, i);
      LeftInPair(tree, ids, i);
    }
    if j: nat :| PairAt(tree, ids, j) {
      var i := OneOfPair(tree, ids, j);
      UnreleasedLeaves(tree, rank, x, ids[i]);
    }
  }

  lemma LeftInPair(tree: Tree, ids: seq<nat>, i: nat)
    requires InTree(tree, ids) && i < |ids| && LeftAt(tree, ids, i)
    ensures i > 0 && PairAt(tree, ids, i - 1)
  {
  }

  lemma OneOfPair(tree: Tree, ids: seq<nat>, j: nat) returns (i: nat)
    requires InTree(tree, ids) && PairAt(tree, ids, j)
    ensures i < |ids| && LeftAt(tree, ids, i)
  {
    i := if Ones(tree, ids, j) % 2 == 1 then j else j + 1;
  }

  const FOUR: Tree := map[3 := Node(Some(2), 1), 2 := Node(Some(1), 1), 1 := Node(Some(0), 1), 0 := Node(None, 1)]
  const FOUR_RANKS: Ranks := map[3 := 3, 2 := 2, 1 := 1, 0 := 0]

  /** A chain of four below one area: the walk succeeds and leaves an object with a single parent. */
  lemma UnreleasedExample()
    ensures Sound(FOUR, [3], FOUR_RANKS, multiset{})
    ensures WalkOk(FOUR, FOUR_RANKS, false, 3) && WalkLeaves(FOUR, multiset{}, FOUR_RANKS, false, 3, 1)
  {
    hide Parents;
    assert Acyclic(FOUR, FOUR_RANKS);
    assert Survives(FOUR, FOUR_RANKS, false, Some(1), 1);
    assert Leaves(FOUR, multiset{}, FOUR_RANKS, false, Some(1), 1, 1);
    forall x | x in FOUR ensures |Parents(FOUR, [3], x)| == 1 {
      OneParentInFour(x);
    }
  }

  lemma OneParentInFour(x: nat)
    requires x <= 3
    ensures |Parents(FOUR, [3], x)| == 1
  {
    hide Parents;
    ParentsRefer(FOUR, [3], x);
    var p := if x == 3 then AreaParent(0) else ObjectParent(x + 1);
    forall q ensures Refers(FOUR, [3], q, x) <==> q == p {
      match q { case AreaParent(i) => case ObjectParent(y) => }
    }
    OnlyElement(Parents(FOUR, [3], x), p);
  }

  const FORK: Tree :=
    map[5 := Node(Some(2), 1), 4 := Node(Some(3), 1), 3 := Node(Some(2), 1), 2 := Node(Some(1), 2), 1 := Node(None, 1)]
  const FORK_RANKS: Ranks := map[5 := 5, 4 := 4, 3 := 3, 2 := 2, 1 := 1]

  /**
   Two areas whose chains meet in an object with two parents, one of them an object with a single parent: with
   references released the walk succeeds, and without it fails the assertion.
   */
  lemma UnreleasedPanics()
    ensures Sound(FORK, [4, 5], FORK_RANKS, multiset{})
    ensures WalkOk(FORK, FORK_RANKS, true, 4) && !WalkOk(FORK, FORK_RANKS, false, 4)
  {
    hide Parents;
    assert Acyclic(FORK, FORK_RANKS);
    assert Survives(FORK, FORK_RANKS, true, Some(2), 0) && !Survives(FORK, FORK_RANKS, false, Some(2), 1);
    forall x | x in FORK ensures |Parents(FORK, [4, 5], x)| == FORK[x].refs {
      ParentsInFork(x);
    }
  }

  lemma ParentsInFork(x: nat)
    requires x in FORK
    ensures |Parents(FORK, [4, 5], x)| == FORK[x].refs
  {
    hide Parents;
    ParentsRefer(FORK, [4, 5], x);
    if x == 2 {
      forall q ensures Refers(FORK, [4, 5], q, x) <==> q in {ObjectParent(3), ObjectParent(5)} {
        match q { case AreaParent(i) => case ObjectParent(y) => }
      }
      assert Parents(FORK, [4, 5], x) == {ObjectParent(3), ObjectParent(5)};
    } else {
      var p := if x == 4 then AreaParent(0) else if x == 5 then AreaParent(1)
               else if x == 3 then ObjectParent(4) else ObjectParent(2);
      forall q ensures Refers(FORK, [4, 5], q, x) <==> q == p {
        match q { case AreaParent(i) => case ObjectParent(y) => }
      }
      OnlyElement(Parents(FORK, [4, 5], x), p);
    }
  }

  lemma OnlyElement<T>(s: set<T>, y: T)
    requires forall z :: z in s <==> z == y
    ensures |s| == 1
  {
    assert s == {y};
  }

  // Splicing

  /** Below the spliced object, the next one has more references and the rest is as it was. */
  lemma {:induction false} WalkOn(tree: Tree, tree': Tree, drift: multiset<nat>, drift': multiset<nat>, rank: Ranks,
                                  releases: bool, x: nat, extra: int, more: int, y: nat)
    requires Acyclic(tree, rank) && Acyclic(tree', rank) && x in tree && x in tree'
    requires tree'[x] == tree[x].(refs := tree[x].refs + extra) && drift'[x] == drift[x] + extra
    requires forall z :: z in tree && rank[z] < rank[x] ==> z in tree' && tree'[z] == tree[z] && drift'[z] == drift[z]
    ensures Survives(tree', rank, releases, Some(x), more) <==> Survives(tree, rank, releases, Some(x), more + extra)
    ensures Leaves(tree', drift', rank, releases, Some(x), more, y)
       <==> Leaves(tree, drift, rank, releases, Some(x), more + extra, y)
    decreases rank[x]
  {
    if tree[x].shadowed.Some? {
      var n := tree'[x].refs + more;
      var more' := if n == 1 && !releases then 1 else 0;
      WalkOn(tree, tree', drift, drift', rank, releases, tree[x].shadowed.value, 0, more', y);
    }
  }

  /** Above last, splicing changes nothing. */
  lemma {:induction false} SettledAbove(tree: Tree, tree': Tree, rank: Ranks, x: nat, last: nat)
    requires Acyclic(tree, rank) && Acyclic(tree', rank) && x in tree && tree.Keys == tree'.Keys && last in tree
    requires forall y :: y in tree && rank[y] >= rank[last] && y != last ==> tree'[y] == tree[y]
    requires tree'[last].refs == tree[last].refs
    requires tree[last].shadowed.Some? && tree'[last].shadowed.Some?
    ensures SettledTo(tree, rank, x, last) <==> SettledTo(tree', rank, x, last)
    decreases rank[x]
  {
    if rank[x] < rank[last] {
      NotBelow(tree, rank, x, last);
      NotBelow(tree', rank, x, last);
    } else if x != last && tree[x].shadowed.Some? {
      var s := tree[x].shadowed.value;
      SettledAbove(tree, tree', rank, s, last);
      if rank[s] < rank[last] {
        NotBelow(tree, rank, s, last);
      }
    }
  }

  lemma {:induction false} NotBelow(tree: Tree, rank: Ranks, x: nat, last: nat)
    requires Acyclic(tree, rank) && x in tree && last in tree && rank[x] < rank[last]
    ensures !SettledTo(tree, rank, x, last)
    decreases rank[x]
  {
    if tree[x].shadowed.Some? { NotBelow(tree, rank, tree[x].shadowed.value, last); }
  }

  /** A chain settled before stays settled: it has no part in what is spliced. */
  lemma {:induction false} SettledKept(tree: Tree, rank: Ranks, releases: bool, last: nat, o: nat, x: nat)
    requires Acyclic(tree, rank) && InUseShadowsInUse(tree) && OnlyParent(tree, last, o)
    requires Acyclic(SplicedTree(tree, releases, last), rank)
    requires x in tree && tree[x].refs > 0 && x != o && Settled(tree, rank, x)
    ensures Settled(SplicedTree(tree, releases, last), rank, x)
    decreases rank[x]
  {
    if tree[x].shadowed.Some? && tree[tree[x].shadowed.value].shadowed.Some? {
      SettledKept(tree, rank, releases, last, o, tree[x].shadowed.value);
    }
  }

  /** Nothing but o leads to what o shadows, unless that is the bottom. */
  ghost predicate Alone(tree: Tree, o: nat)
    requires o in tree && tree[o].shadowed.Some? && tree[o].shadowed.value in tree
  {
    var s := tree[o].shadowed.value;
    tree[s].shadowed.Some? ==> forall q :: q in tree && tree[q].refs > 0 && q != o ==> tree[q].shadowed != Some(s)
  }

  /** If anything in use shadows last, last has a second reference. */
  ghost predicate Firm(tree: Tree, last: nat)
    requires last in tree
  {
    (exists q :: q in tree && tree[q].refs > 0 && tree[q].shadowed == Some(last)) ==> tree[last].refs >= 2
  }

  /**
   What an unreleased splice needs so that other walks do not notice: the daemon has it as long as its walk succeeds.
   */
  ghost predicate Unnoticed(tree: Tree, releases: bool, last: nat, o: nat)
    requires last in tree && o in tree && tree[o].shadowed.Some? && tree[o].shadowed.value in tree
  {
    releases || (Alone(tree, o) && Firm(tree, last))
  }

  /** Walking through other objects goes as before. */
  lemma {:induction false} WalkKept(tree: Tree, drift: multiset<nat>, rank: Ranks, releases: bool, last: nat, o: nat,
                                    x: nat, more: int, y: nat)
    requires Acyclic(tree, rank) && InUseShadowsInUse(tree) && OnlyParent(tree, last, o)
    requires Unnoticed(tree, releases, last, o)
    requires Acyclic(SplicedTree(tree, releases, last), rank)
    requires x in tree && tree[x].refs > 0 && x != o
    requires (releases || tree[o].shadowed != Some(x) || tree[x].shadowed.None?)
    requires more >= 0 && (if releases then more == 0 else x == last ==> tree[last].refs >= 2)
    ensures var tree', drift' := SplicedTree(tree, releases, last), Drifted(drift, releases, tree[o].shadowed.value);
            && (Survives(tree', rank, releases, Some(x), more) <==> Survives(tree, rank, releases, Some(x), more))
            && (Leaves(tree', drift', rank, releases, Some(x), more, y)
                <==> Leaves(tree, drift, rank, releases, Some(x), more, y))
    decreases rank[x]
  {
    if tree[x].shadowed.Some? {
      if x == last {
        PastLast(tree, drift, rank, releases, last, o, y);
      } else {
        var n := tree[x].refs + more;
        WalkKept(tree, drift, rank, releases, last, o, tree[x].shadowed.value, if n == 1 && !releases then 1 else 0, y);
      }
    }
  }

  /** From last on, o's part in the walk is taken over by the count of what it shadowed. */
  lemma PastLast(tree: Tree, drift: multiset<nat>, rank: Ranks, releases: bool, last: nat, o: nat, y: nat)
    requires Acyclic(tree, rank) && OnlyParent(tree, last, o) && Acyclic(SplicedTree(tree, releases, last), rank)
    ensures var s := tree[o].shadowed.value;
            var tree', drift' := SplicedTree(tree, releases, last), Drifted(drift, releases, s);
            && (Survives(tree', rank, releases, Some(s), 0) <==> Survives(tree, rank, releases, Some(o), 0))
            && (Leaves(tree', drift', rank, releases, Some(s), 0, y)
                <==> Leaves(tree, drift, rank, releases, Some(o), 0, y))
  {
    var s := tree[o].shadowed.value;
    var tree', drift' := SplicedTree(tree, releases, last), Drifted(drift, releases, s);
    assert rank[s] < rank[o] < rank[last];
    WalkOn(tree, tree', drift, drift', rank, releases, s, if releases then 0 else 1, 0, y);
  }

  /** The walk from any object in use succeeds as before, and would leave the same objects behind. */
  lemma WalksKept(tree: Tree, drift: multiset<nat>, rank: Ranks, releases: bool, last: nat, o: nat, x: nat, y: nat)
    requires Acyclic(tree, rank) && InUseShadowsInUse(tree) && OnlyParent(tree, last, o)
    requires Unnoticed(tree, releases, last, o)
    requires Acyclic(SplicedTree(tree, releases, last), rank)
    requires x in tree && tree[x].refs > 0 && x != o
    ensures var tree', drift' := SplicedTree(tree, releases, last), Drifted(drift, releases, tree[o].shadowed.value);
            && (WalkOk(tree', rank, releases, x) <==> WalkOk(tree, rank, releases, x))
            && (WalkLeaves(tree', drift', rank, releases, x, y) <==> WalkLeaves(tree, drift, rank, releases, x, y))
  {
    if x == last {
      PastLast(tree, drift, rank, releases, last, o, y);
    } else if tree[x].shadowed.Some? {
      WalkKept(tree, drift, rank, releases, last, o, tree[x].shadowed.value, 0, y);
    }
  }

  /** As long as the walk succeeds, its splices go unnoticed. */
  lemma StaysUnnoticed(tree: Tree, areas: seq<nat>, drift: multiset<nat>, rank: Ranks, releases: bool, last: nat,
                       o: nat)
    requires Sound(tree, areas, rank, drift) && OnlyParent(tree, last, o) && (last in areas || tree[last].refs >= 2)
    requires WalkOk(tree, rank, releases, last)
    ensures Unnoticed(tree, releases, last, o)
  {
    hide Parents;
    ReferredInUse(tree, areas, rank, drift);
    var s := tree[o].shadowed.value;
    if !releases && tree[s].shadowed.Some? {
      assert Survives(tree, rank, releases, Some(s), 1);
      SoleParent(tree, areas, rank, drift, o, s);
    }
    if q :| q in tree && tree[q].refs > 0 && tree[q].shadowed == Some(last) && last in areas {
      var i: nat :| i < |areas| && areas[i] == last;
      TwoParents(tree, areas, drift, AreaParent(i), ObjectParent(q), last);
    }
  }

  // Walking

  /** Going one object further down. */
  lemma {:induction false} SettledFurther(tree: Tree, rank: Ranks, x: nat, last: nat, o: nat)
    requires Acyclic(tree, rank) && x in tree && SettledTo(tree, rank, x, last)
    requires last in tree && tree[last].shadowed == Some(o) && tree[o].shadowed.Some? && tree[o].refs != 1
    ensures SettledTo(tree, rank, x, o)
    decreases rank[x]
  {
    if x == last {
      assert SettledTo(tree, rank, o, o);
    } else {
      SettledFurther(tree, rank, tree[x].shadowed.value, last, o);
    }
  }

  /** At the end of the chain. */
  lemma {:induction false} SettledEnd(tree: Tree, rank: Ranks, x: nat, last: nat)
    requires Acyclic(tree, rank) && x in tree && SettledTo(tree, rank, x, last)
    requires last in tree && (tree[last].shadowed.Some? ==> tree[tree[last].shadowed.value].shadowed.None?)
    ensures Settled(tree, rank, x)
    decreases rank[x]
  {
    if x != last { SettledEnd(tree, rank, tree[x].shadowed.value, last); }
  }

  /** y lies between top and bottom of x's chain and has a single parent: drift holds the references without one. */
  ghost predicate SingleInner(tree: Tree, drift: multiset<nat>, rank: Ranks, x: nat, y: nat)
    requires Acyclic(tree, rank) && x in tree
  {
    Between(tree, rank, x, y) && y in tree && tree[y].refs - drift[y] == 1
  }

  /** Walking a settled chain changes nothing, so it leaves exactly those. */
  lemma {:induction false} SettledLeaves(tree: Tree, drift: multiset<nat>, rank: Ranks, releases: bool, x: nat, y: nat)
    requires Acyclic(tree, rank) && x in tree && Settled(tree, rank, x)
    ensures WalkLeaves(tree, drift, rank, releases, x, y) <==> SingleInner(tree, drift, rank, x, y)
    decreases rank[x]
  {
    if tree[x].shadowed.Some? && tree[tree[x].shadowed.value].shadowed.Some? {
      SettledLeaves(tree, drift, rank, releases, tree[x].shadowed.value, y);
    }
  }

  /** Each area's chain can be walked exactly if it could be before, and the walk would leave the same objects. */
  ghost predicate SameWalks(tree0: Tree, tree: Tree, drift0: multiset<nat>, drift: multiset<nat>, rank: Ranks,
                            releases: bool, areas: seq<nat>)
    requires Acyclic(tree0, rank) && Acyclic(tree, rank)
    requires forall i :: 0 <= i < |areas| ==> areas[i] in tree0 && areas[i] in tree
  {
    && (releases ==> drift == drift0)
    && (forall i :: 0 <= i < |areas| ==>
          (WalkOk(tree0, rank, releases, areas[i]) <==> WalkOk(tree, rank, releases, areas[i])))
    && (forall i, y :: 0 <= i < |areas| ==>
          (WalkLeaves(tree0, drift0, rank, releases, areas[i], y)
           <==> WalkLeaves(tree, drift, rank, releases, areas[i], y)))
  }

  /** The single-parent objects that x's chain has now are those that walking it in tree0 leaves behind. */
  ghost predicate LeftBehind(tree0: Tree, tree: Tree, drift0: multiset<nat>, drift: multiset<nat>, rank: Ranks,
                             releases: bool, x: nat)
    requires Acyclic(tree0, rank) && Acyclic(tree, rank) && x in tree0 && x in tree
  {
    forall y :: SingleInner(tree, drift, rank, x, y) <==> WalkLeaves(tree0, drift0, rank, releases, x, y)
  }

  /** Chains that were settled still are. */
  ghost predicate StillSettled(tree0: Tree, tree: Tree, rank: Ranks, areas: seq<nat>)
    requires Acyclic(tree0, rank) && Acyclic(tree, rank)
    requires forall i :: 0 <= i < |areas| ==> areas[i] in tree0 && areas[i] in tree
  {
    forall i :: 0 <= i < |areas| && Settled(tree0, rank, areas[i]) ==> Settled(tree, rank, areas[i])
  }

  lemma WalksTransitive(t1: Tree, t2: Tree, t3: Tree, d1: multiset<nat>, d2: multiset<nat>, d3: multiset<nat>,
                        rank: Ranks, releases: bool, areas: seq<nat>)
    requires Acyclic(t1, rank) && Acyclic(t2, rank) && Acyclic(t3, rank)
    requires forall i :: 0 <= i < |areas| ==> areas[i] in t1 && areas[i] in t2 && areas[i] in t3
    requires SameWalks(t1, t2, d1, d2, rank, releases, areas) && SameWalks(t2, t3, d2, d3, rank, releases, areas)
    ensures SameWalks(t1, t3, d1, d3, rank, releases, areas)
  {
    hide WalkOk, WalkLeaves, Acyclic;
    forall i, y | 0 <= i < |areas|
      ensures WalkLeaves(t1, d1, rank, releases, areas[i], y) <==> WalkLeaves(t3, d3, rank, releases, areas[i], y)
    {
      assert WalkLeaves(t1, d1, rank, releases, areas[i], y) <==> WalkLeaves(t2, d2, rank, releases, areas[i], y);
    }
  }

  lemma SettledTransitive(t1: Tree, t2: Tree, t3: Tree, rank: Ranks, areas: seq<nat>)
    requires Acyclic(t1, rank) && Acyclic(t2, rank) && Acyclic(t3, rank)
    requires forall i :: 0 <= i < |areas| ==> areas[i] in t1 && areas[i] in t2 && areas[i] in t3
    requires StillSettled(t1, t2, rank, areas) && StillSettled(t2, t3, rank, areas)
    ensures StillSettled(t1, t3, rank, areas)
  {
  }

  lemma OthersSplice(tree: Tree, drift: multiset<nat>, rank: Ranks, releases: bool, areas: seq<nat>, last: nat, o: nat)
    requires Sound(tree, areas, rank, drift) && OnlyParent(tree, last, o) && o !in areas
    requires (last in areas || tree[last].refs >= 2)
    requires Acyclic(SplicedTree(tree, releases, last), rank)
    ensures StillSettled(tree, SplicedTree(tree, releases, last), rank, areas)
    ensures WalkOk(tree, rank, releases, last) ==>
              SameWalks(tree, SplicedTree(tree, releases, last), drift,
                        Drifted(drift, releases, tree[o].shadowed.value), rank, releases, areas)
  {
    hide WalkOk, WalkLeaves, Settled, Acyclic, Parents;
    ReferredInUse(tree, areas, rank, drift);
    forall i | 0 <= i < |areas| && Settled(tree, rank, areas[i])
      ensures Settled(SplicedTree(tree, releases, last), rank, areas[i])
    {
      SettledKept(tree, rank, releases, last, o, areas[i]);
    }
    if WalkOk(tree, rank, releases, last) {
      StaysUnnoticed(tree, areas, drift, rank, releases, last, o);
      var tree', drift' := SplicedTree(tree, releases, last), Drifted(drift, releases, tree[o].shadowed.value);
      forall i, y | 0 <= i < |areas|
        ensures WalkOk(tree, rank, releases, areas[i]) <==> WalkOk(tree', rank, releases, areas[i])
        ensures WalkLeaves(tree, drift, rank, releases, areas[i], y)
           <==> WalkLeaves(tree', drift', rank, releases, areas[i], y)
      {
        WalksKept(tree, drift, rank, releases, last, o, areas[i], y);
      }
      forall i | 0 <= i < |areas|
        ensures WalkOk(tree, rank, releases, areas[i]) <==> WalkOk(tree', rank, releases, areas[i])
      {
        WalksKept(tree, drift, rank, releases, last, o, areas[i], 0);
      }
    }
  }

  /** A walk that began at top in tree0 has reached last; what remains to be walked decides how it will end. */
  ghost predicate Walking(tree0: Tree, tree: Tree, rank: Ranks, releases: bool, top: nat, last: nat)
    requires Acyclic(tree0, rank) && Acyclic(tree, rank) && top in tree0 && top in tree && last in tree
  {
    SettledTo(tree, rank, top, last) && (WalkOk(tree0, rank, releases, top) <==> WalkOk(tree, rank, releases, last))
  }

  lemma WalkSplice(tree0: Tree, tree: Tree, rank: Ranks, releases: bool, top: nat, last: nat, o: nat)
    requires Acyclic(tree0, rank) && Acyclic(tree, rank) && top in tree0 && top in tree && OnlyParent(tree, last, o)
    requires Walking(tree0, tree, rank, releases, top, last)
    ensures Acyclic(SplicedTree(tree, releases, last), rank)
    ensures Walking(tree0, SplicedTree(tree, releases, last), rank, releases, top, last)
  {
    hide SettledTo;
    SpliceAcyclic(tree, rank, releases, last, o);
    PastLast(tree, multiset{}, rank, releases, last, o, 0);
    assert rank[tree[o].shadowed.value] < rank[o] < rank[last];
    SettledAbove(tree, SplicedTree(tree, releases, last), rank, top, last);
  }

  lemma WalkDown(tree0: Tree, tree: Tree, rank: Ranks, releases: bool, top: nat, last: nat, o: nat)
    requires Acyclic(tree0, rank) && Acyclic(tree, rank) && top in tree0 && top in tree && last in tree
    requires tree[last].shadowed == Some(o) && tree[o].shadowed.Some? && tree[o].refs == 2
    requires Walking(tree0, tree, rank, releases, top, last)
    ensures Walking(tree0, tree, rank, releases, top, o)
  {
    SettledFurther(tree, rank, top, last, o);
  }

  lemma WalkFails(tree0: Tree, tree: Tree, rank: Ranks, releases: bool, top: nat, last: nat, o: nat)
    requires Acyclic(tree0, rank) && Acyclic(tree, rank) && top in tree0 && top in tree && last in tree
    requires tree[last].shadowed == Some(o) && tree[o].shadowed.Some? && tree[o].refs > 2
    requires Walking(tree0, tree, rank, releases, top, last)
    ensures !WalkOk(tree0, rank, releases, top)
  {
  }

  lemma WalkEnd(tree0: Tree, tree: Tree, rank: Ranks, releases: bool, top: nat, last: nat)
    requires Acyclic(tree0, rank) && Acyclic(tree, rank) && top in tree0 && top in tree && last in tree
    requires tree[last].shadowed.Some? ==> tree[tree[last].shadowed.value].shadowed.None?
    requires Walking(tree0, tree, rank, releases, top, last)
    ensures WalkOk(tree0, rank, releases, top) && Settled(tree, rank, top)
  {
    SettledEnd(tree, rank, top, last);
  }
}
