/**
 Start-up in the order of dependencies (kernel/util/init.c): a function is called
 after the functions it depends on, found by a search that marks what it has met.
 A panic ends start-up, so it is an outcome.
 */
module Init {
  import opened Lists
  import opened Options

  /** A start-up function and the names of those it depends on. */
  datatype Function = Function(name: string, deps: seq<string>)

  type Functions = seq<Function>

  /** The k-th dependency of function i. */
  datatype Edge = Edge(i: nat, k: nat)

  /** The first function of that name. */
  function Resolve(fs: Functions, name: string): (r: Option<nat>)
    ensures match r
            case Some(j) => j < |fs| && fs[j].name == name && forall x :: 0 <= x < j ==> fs[x].name != name
            case None => forall x :: 0 <= x < |fs| ==> fs[x].name != name
  {
    if fs == [] then None
    else
      var init := fs[..|fs| - 1];
      var r := Resolve(init, name);
      assert forall x :: 0 <= x < |init| ==> fs[x] == init[x];
      if r.Some? then r else if fs[|fs| - 1].name == name then Some(|fs| - 1) else None
  }

  predicate IsEdge(fs: Functions, e: Edge) { e.i < |fs| && e.k < |fs[e.i].deps| }

  function Target(fs: Functions, e: Edge): Option<nat>
    requires IsEdge(fs, e)
  {
    Resolve(fs, fs[e.i].deps[e.k])
  }

  // When a search succeeds

  /** A chain of dependencies from r to x through functions that had not been called. */
  ghost predicate Path(fs: Functions, done: set<nat>, p: seq<nat>, r: nat, x: nat)
  {
    && p != [] && p[0] == r && p[|p| - 1] == x
    && forall a :: 0 <= a < |p| - 1 ==> DependsDirectly(fs, done, p[a], p[a + 1])
  }

  ghost predicate DependsDirectly(fs: Functions, done: set<nat>, x: nat, y: nat)
  {
    y !in done && exists e :: IsEdge(fs, e) && e.i == x && Target(fs, e) == Some(y)
  }

  ghost predicate Reached(fs: Functions, done: set<nat>, r: nat, x: nat)
  {
    exists p :: Path(fs, done, p, r, x)
  }

  /**
   All dependencies of what r pulls in exist, none of them is r itself, and of the
   functions not called before, each is a dependency only once.
   */
  ghost predicate Tree(fs: Functions, done: set<nat>, r: nat)
  {
    && (forall e :: IsEdge(fs, e) && Reached(fs, done, r, e.i) ==> Target(fs, e).Some? && Target(fs, e) != Some(r))
    && (forall e, e' ::
          IsEdge(fs, e) && IsEdge(fs, e') && e != e' && Reached(fs, done, r, e.i) && Reached(fs, done, r, e'.i) ==>
          Target(fs, e).None? || Target(fs, e).value in done || Target(fs, e) != Target(fs, e'))
  }

  ghost function PulledIn(fs: Functions, done: set<nat>, r: nat): set<nat>
  {
    set x: nat | x < |fs| && Reached(fs, done, r, x)
  }

  /** Taking the functions from the i-th on in turn, what each not called by then pulls in is a tree. */
  ghost predicate AllTrees(fs: Functions, done: set<nat>, i: nat)
    requires i <= |fs|
    decreases |fs| - i
  {
    i == |fs| ||
    if i in done then AllTrees(fs, done, i + 1)
    else Tree(fs, done, i) && AllTrees(fs, done + PulledIn(fs, done, i), i + 1)
  }

  /** Functions that depend on each other in a circle. */
  ghost predicate Cycle(fs: Functions, p: seq<nat>)
  {
    && |p| > 1 && p[0] == p[|p| - 1] && (forall c :: 0 <= c < |p| ==> p[c] < |fs|)
    && forall c :: 0 <= c < |p| - 1 ==> DependsDirectly(fs, {}, p[c], p[c + 1])
  }

  lemma ReachedSelf(fs: Functions, done: set<nat>, r: nat)
    ensures Reached(fs, done, r, r)
  {
    assert Path(fs, done, [r], r, r);
  }

  lemma ReachedFurther(fs: Functions, done: set<nat>, r: nat, e: Edge)
    requires IsEdge(fs, e) && Reached(fs, done, r, e.i) && Target(fs, e).Some? && Target(fs, e).value !in done
    ensures Reached(fs, done, r, Target(fs, e).value)
  {
    var p :| Path(fs, done, p, r, e.i);
    var y := Target(fs, e).value;
    var p' := p + [y];
    assert DependsDirectly(fs, done, e.i, y);
    forall a | 0 <= a < |p'| - 1 ensures DependsDirectly(fs, done, p'[a], p'[a + 1]) {
      if a < |p| - 1 { assert p'[a] == p[a] && p'[a + 1] == p[a + 1]; }
    }
    assert Path(fs, done, p', r, y);
  }

  /** A set with r in it that is closed under dependencies has all that is reached. */
  lemma {:induction false} ReachedInside(fs: Functions, done: set<nat>, r: nat, m: set<nat>, p: seq<nat>, x: nat)
    requires r in m && Path(fs, done, p, r, x)
    requires forall e :: IsEdge(fs, e) && e.i in m && Target(fs, e).Some? && Target(fs, e).value !in done ==>
              Target(fs, e).value in m
    ensures x in m
    decreases |p|
  {
    if |p| > 1 {
      var y, q := p[|p| - 2], p[..|p| - 1];
      assert DependsDirectly(fs, done, p[|p| - 2], p[|p| - 2 + 1]);
      forall a | 0 <= a < |q| - 1 ensures DependsDirectly(fs, done, q[a], q[a + 1]) {
        assert q[a] == p[a] && q[a + 1] == p[a + 1];
      }
      assert Path(fs, done, q, r, y);
      ReachedInside(fs, done, r, m, q, y);
    }
  }

  // The calls made

  /** Every dependency of what is called has been called before it. */
  ghost predicate InOrder(fs: Functions, order: seq<nat>)
  {
    forall a, e :: 0 <= a < |order| && IsEdge(fs, e) && e.i == order[a] ==>
      Target(fs, e).Some? && Target(fs, e).value in order[..a]
  }

  lemma CalledNext(fs: Functions, order: seq<nat>, i: nat)
    requires InOrder(fs, order) && NoDup(order) && i !in order
    requires forall e :: IsEdge(fs, e) && e.i == i ==> Target(fs, e).Some? && Target(fs, e).value in order
    ensures InOrder(fs, order + [i]) && NoDup(order + [i])
  {
    var o := order + [i];
    forall a, e | 0 <= a < |o| && IsEdge(fs, e) && e.i == o[a]
      ensures Target(fs, e).Some? && Target(fs, e).value in o[..a]
    {
      if a < |order| { assert order[..a] == o[..a]; } else { assert o[..a] == order; }
    }
  }

  /** An order of calls leaves no room for a cycle. */
  lemma {:induction false} OrderHasNoCycle(fs: Functions, order: seq<nat>, p: seq<nat>, a: nat, b: nat)
    requires InOrder(fs, order) && NoDup(order) && |p| > 1 && a < |order| && b < |order| && p[0] == order[a]
    requires p[|p| - 1] == order[b]
    requires forall c :: 0 <= c < |p| - 1 ==> DependsDirectly(fs, {}, p[c], p[c + 1])
    ensures b < a
    decreases |p|
  {
    assert DependsDirectly(fs, {}, p[0], p[0 + 1]);
    var e :| IsEdge(fs, e) && e.i == p[0] && Target(fs, e) == Some(p[1]);
    assert p[1] in order[..a];
    var c :| 0 <= c < a && order[..a][c] == p[1];
    if |p| > 2 {
      var q := p[1..];
      forall d | 0 <= d < |q| - 1 ensures DependsDirectly(fs, {}, q[d], q[d + 1]) {
        assert q[d] == p[d + 1] && q[d + 1] == p[d + 1 + 1];
      }
      OrderHasNoCycle(fs, order, q, c, b);
    }
  }

  // The search

  /**
   The search from r has marked the functions in m and looked at the dependencies
   in seen; done is what had been called when it began, called what has been by now.
   */
  datatype Search = Search(r: nat, done: set<nat>, m: set<nat>, called: set<nat>, seen: set<Edge>, order: seq<nat>)

  ghost predicate Searching(fs: Functions, s: Search)
  {
    && s.r in s.m && s.m !! s.done && s.done <= s.called && (forall i :: i in s.called ==> i in s.done || i in s.m)
    && (forall i :: i in s.m ==> i < |fs|)
    && (forall i :: i in s.done ==> i < |fs|)
    && (forall i :: i in s.m ==> Reached(fs, s.done, s.r, i))
    && (forall e :: e in s.seen ==> IsEdge(fs, e) && e.i in s.m && Target(fs, e).Some? && Target(fs, e) != Some(s.r))
    && (forall e :: e in s.seen ==> Target(fs, e).value in s.done || Target(fs, e).value in s.m)
    && (forall e, e' :: e in s.seen && e' in s.seen && e != e' && Target(fs, e).value !in s.done ==>
          Target(fs, e) != Target(fs, e'))
    && (forall x :: x in s.m && x != s.r ==> exists e :: e in s.seen && Target(fs, e) == Some(x))
    && Calls(fs, s.called, s.order)
  }

  /** The calls made are those of the functions marked as called. */
  ghost predicate Calls(fs: Functions, called: set<nat>, order: seq<nat>)
  {
    InOrder(fs, order) && NoDup(order) && forall i :: i in order <==> i in called
  }

  /** The search panics only if what r pulls in is no tree. */
  lemma PanicMeansNoTree(fs: Functions, s: Search, e: Edge)
    requires Searching(fs, s) && IsEdge(fs, e) && e.i in s.m && e !in s.seen
    requires Target(fs, e).None? || Target(fs, e).value in s.m
    ensures !Tree(fs, s.done, s.r)
  {
    if Target(fs, e).Some? && Target(fs, e).value != s.r {
      var e' :| e' in s.seen && Target(fs, e') == Target(fs, e);
      assert Reached(fs, s.done, s.r, e'.i);
    }
  }

  lemma LookAtCalled(fs: Functions, s: Search, e: Edge)
    requires Searching(fs, s) && IsEdge(fs, e) && e.i in s.m && e !in s.seen
    requires Target(fs, e).Some? && Target(fs, e).value !in s.m && Target(fs, e).value in s.called
    ensures Searching(fs, s.(seen := s.seen + {e}))
  {
    hide Reached, Target, Calls;
    var s' := s.(seen := s.seen + {e});
    forall y | y in s'.m && y != s.r ensures exists e' :: e' in s'.seen && Target(fs, e') == Some(y) {
      var e' :| e' in s.seen && Target(fs, e') == Some(y);
      assert e' in s'.seen;
    }
  }

  lemma LookAtNew(fs: Functions, s: Search, e: Edge)
    requires Searching(fs, s) && IsEdge(fs, e) && e.i in s.m && e !in s.seen
    requires Target(fs, e).Some? && Target(fs, e).value !in s.m && Target(fs, e).value !in s.called
    ensures Searching(fs, s.(seen := s.seen + {e}, m := s.m + {Target(fs, e).value}))
  {
    hide Reached, Target, Calls;
    var x := Target(fs, e).value;
    TargetExists(fs, e);
    ReachedFurther(fs, s.done, s.r, e);
    var s' := s.(seen := s.seen + {e}, m := s.m + {x});
    forall e' | e' in s.seen ensures Target(fs, e').Some? && Target(fs, e').value != x && e'.i in s'.m { }
    assert x != s.r && x !in s.done;
    forall y | y in s'.m && y != s.r ensures exists e' :: e' in s'.seen && Target(fs, e') == Some(y) {
      if y == x {
        assert e in s'.seen;
      } else {
        var e' :| e' in s.seen && Target(fs, e') == Some(y);
        assert e' in s'.seen;
      }
    }
    forall e1, e2 | e1 in s'.seen && e2 in s'.seen && e1 != e2 && Target(fs, e1).value !in s.done
      ensures Target(fs, e1) != Target(fs, e2)
    {
    }
  }

  lemma TargetExists(fs: Functions, e: Edge)
    requires IsEdge(fs, e) && Target(fs, e).Some?
    ensures Target(fs, e).value < |fs|
  {
  }

  lemma CallIt(fs: Functions, s: Search, f: nat)
    requires Searching(fs, s) && f in s.m && f !in s.called
    requires forall e :: IsEdge(fs, e) && e.i == f ==> Target(fs, e).Some? && Target(fs, e).value in s.called
    ensures Searching(fs, s.(called := s.called + {f}, order := s.order + [f]))
  {
    CalledNext(fs, s.order, f);
  }

  /** When all dependencies have been looked at, what r pulls in is a tree and has been marked. */
  lemma SearchEnds(fs: Functions, s: Search)
    requires Searching(fs, s) && forall e :: IsEdge(fs, e) && e.i in s.m ==> e in s.seen
    ensures Tree(fs, s.done, s.r) && forall x :: Reached(fs, s.done, s.r, x) <==> x in s.m
  {
    forall x | Reached(fs, s.done, s.r, x) ensures x in s.m {
      var p :| Path(fs, s.done, p, s.r, x);
      ReachedInside(fs, s.done, s.r, s.m, p, x);
    }
  }

  /** What a call of _init_call adds: the functions newly marked, and f. */
  ghost predicate Extends(fs: Functions, s: Search, s': Search, f: nat)
  {
    && s'.r == s.r && s'.done == s.done && s.m <= s'.m
    && s'.called == s.called + (s'.m - s.m) + {f}
    && forall e :: e in s'.seen <==> e in s.seen || (IsEdge(fs, e) && (e.i == f || e.i in s'.m - s.m))
  }

  /** The same, with the first j dependencies of f looked at and f not called yet. */
  ghost predicate PartlyExtends(fs: Functions, s: Search, s': Search, f: nat, j: nat)
  {
    && s'.r == s.r && s'.done == s.done && s.m <= s'.m
    && s'.called == s.called + (s'.m - s.m)
    && (forall e :: e in s'.seen <==> e in s.seen || (IsEdge(fs, e) && ((e.i == f && e.k < j) || e.i in s'.m - s.m)))
    && (forall e :: IsEdge(fs, e) && e.i == f && e.k < j ==> Target(fs, e).Some? && Target(fs, e).value in s'.called)
  }

  lemma OneMoreCalled(fs: Functions, s: Search, s1: Search, f: nat, j: nat)
    requires PartlyExtends(fs, s, s1, f, j) && f < |fs| && j < |fs[f].deps| && f in s.m
    requires var e := Edge(f, j); Target(fs, e).Some? && Target(fs, e).value in s1.called
    ensures PartlyExtends(fs, s, s1.(seen := s1.seen + {Edge(f, j)}), f, j + 1)
  {
    hide Target;
    forall e | IsEdge(fs, e) && e.i == f && e.k < j + 1
      ensures Target(fs, e).Some? && Target(fs, e).value in s1.called
    {
      if e.k == j { assert e == Edge(f, j); }
    }
  }

  lemma OneMoreNew(fs: Functions, s: Search, s1: Search, s2: Search, s3: Search, f: nat, j: nat, x: nat)
    requires PartlyExtends(fs, s, s1, f, j) && f < |fs| && j < |fs[f].deps| && f in s.m
    requires Target(fs, Edge(f, j)) == Some(x) && x !in s1.m
    requires s2 == s1.(seen := s1.seen + {Edge(f, j)}, m := s1.m + {x}) && Extends(fs, s2, s3, x)
    ensures PartlyExtends(fs, s, s3, f, j + 1)
  {
    hide Target;
    forall e | IsEdge(fs, e) && e.i == f && e.k < j + 1
      ensures Target(fs, e).Some? && Target(fs, e).value in s3.called
    {
      if e.k == j { assert e == Edge(f, j); }
    }
    forall e
      ensures e in s3.seen <==> e in s.seen || (IsEdge(fs, e) && ((e.i == f && e.k < j + 1) || e.i in s3.m - s.m))
    {
      if IsEdge(fs, e) && e.i == f && e.k == j { assert e == Edge(f, j); }
    }
  }

  class Starter {
    const fs: Functions
    var search: seq<int>
    var called: seq<bool>
    var order: seq<nat>
    var count: int

    ghost predicate Sized()
      reads this
    {
      |search| == |fs| && |called| == |fs|
    }

    ghost function Called(): set<nat>
      reads this
    {
      set i: nat | i < |called| && called[i]
    }

    ghost function Marked(mark: int): set<nat>
      reads this
    {
      set i: nat | i < |search| && search[i] == mark
    }

    /** Nothing has been called. */
    constructor (functions: Functions)
      ensures Sized() && fs == functions && Called() == {} && order == [] && count == 0 && Calls(fs, Called(), order)
      ensures forall i :: 0 <= i < |search| ==> search[i] == 0
    {
      fs := functions;
      search, called := seq(|functions|, _ => 0), seq(|functions|, _ => false);
      order, count := [], 0;
    }

    method Find(name: string) returns (r: Option<nat>)
      ensures r == Resolve(fs, name)
    {
      var i := 0;
      while i < |fs|
        invariant 0 <= i <= |fs| && forall x :: 0 <= x < i ==> fs[x].name != name
      {
        if fs[i].name == name {
          return Some(i);
        }
        i := i + 1;
      }
      return None;
    }

    ghost predicate At(s: Search, mark: int)
      reads this
    {
      && Sized() && Searching(fs, s) && s.m == Marked(mark) && s.called == Called() && s.order == order
    }

    /** The function is met for the first time. */
    method Mark(x: nat, mark: int, ghost s: Search, ghost s2: Search)
      requires At(s, mark) && x < |search| && Searching(fs, s2) && s2 == s.(seen := s2.seen, m := s.m + {x})
      modifies this`search
      ensures At(s2, mark) && search == old(search)[x := mark]
    {
      hide Searching;
      search := search[x := mark];
    }

    /** The function is called. */
    method Run(f: nat, ghost mark: int, ghost s: Search)
      requires At(s, mark) && f in s.m && f !in s.called
      requires forall e :: IsEdge(fs, e) && e.i == f ==> Target(fs, e).Some? && Target(fs, e).value in s.called
      modifies this`called, this`order
      ensures At(s.(called := s.called + {f}, order := s.order + [f]), mark)
    {
      hide Searching;
      CallIt(fs, s, f);
      order := order + [f];
      called := called[f := true];
    }

    /**
     _init_call: panics, or calls f after all that it depends on. It calls just what it newly marks, so the assertion
     that f has not been called meanwhile holds.
     */
    method Call(f: nat, ghost s: Search) returns (ok: bool, ghost s': Search)
      requires f < |search| && At(s, search[f]) && f !in s.called && forall e :: e in s.seen ==> e.i != f
      modifies this`search, this`called, this`order
      ensures ok ==> Sized() && search[f] == old(search)[f] && At(s', search[f]) && Extends(fs, s, s', f)
      ensures ok ==> forall i :: 0 <= i < |search| ==> search[i] == old(search)[i] || search[i] == search[f]
      ensures !ok ==> !Tree(fs, s.done, s.r)
      decreases |fs| - |s.m|
    {
      hide Searching, Target, Tree, PartlyExtends, Extends;
      ghost var mark := search[f];
      s' := s;
      NothingYet(fs, s, f);
      var j := 0;
      while j < |fs[f].deps|
        invariant 0 <= j <= |fs[f].deps| && Sized() && search[f] == mark && At(s', mark)
        invariant PartlyExtends(fs, s, s', f, j)
        invariant forall i :: 0 <= i < |search| ==> search[i] == old(search)[i] || search[i] == mark
      {
        ghost var e := Edge(f, j);
        NotSeenYet(fs, s, s', f, j);
        SameSearch(fs, s, s', f, j);
        var r := Find(fs[f].deps[j]);
        TargetIs(fs, f, j);
        if r.None? {
          PanicMeansNoTree(fs, s', e);
          return false, s';
        }
        TargetExists(fs, e);
        if search[f] == search[r.value] {
          PanicMeansNoTree(fs, s', e);
          return false, s';
        }
        if !called[r.value] {
          LookAtNew(fs, s', e);
          ghost var s1, s2 := s', s'.(seen := s'.seen + {e}, m := s'.m + {r.value});
          Smaller(fs, s, s1, f, j, r.value);
          Mark(r.value, search[f], s1, s2);
          FreshEdges(fs, s, s1, f, j, r.value);
          ok, s' := Call(r.value, s2);
          if !ok {
            return false, s';
          }
          OneMoreNew(fs, s, s1, s2, s', f, j, r.value);
          NotSeenYet(fs, s, s', f, j + 1);
        } else {
          LookAtCalled(fs, s', e);
          OneMoreCalled(fs, s, s', f, j);
          s' := s'.(seen := s'.seen + {e});
        }
        j := j + 1;
      }
      AllLookedAt(fs, s, s', f);
      assert !called[f];
      Run(f, mark, s');
      s' := s'.(called := s'.called + {f}, order := s'.order + [f]);
      ok := true;
    }

    /**
     One search, from a function that has not been called: it succeeds exactly if what the function pulls in is a
     tree.
     */
    method SearchFrom(f: nat) returns (ok: bool)
      requires Sized() && f < |fs| && !called[f] && Calls(fs, Called(), order) && count >= 0
      requires forall i :: 0 <= i < |search| ==> search[i] <= count
      modifies this
      ensures ok <==> Tree(fs, old(Called()), f)
      ensures ok ==> Sized() && Calls(fs, Called(), order) && count >= 0
      ensures ok ==> Called() == old(Called()) + PulledIn(fs, old(Called()), f)
      ensures ok ==> forall i :: 0 <= i < |search| ==> search[i] <= count
    {
      count := count + 1;
      search := search[f := count];
      ghost var s := Search(f, Called(), {f}, Called(), {}, order);
      ReachedSelf(fs, Called(), f);
      ok, s := Call(f, s);
      if ok {
        SearchEnds(fs, s);
      }
    }

    /**
     The loop of init_call_all: if it does not panic, every function has been called once and after all it depends on,
     so there is no cycle. It does not panic exactly if what each search pulls in is a tree.
     */
    method CallAll() returns (ok: bool)
      requires Sized() && Called() == {} && order == [] && count == 0
      requires forall i :: 0 <= i < |search| ==> search[i] == 0
      modifies this
      ensures ok ==> InOrder(fs, order) && NoDup(order) && forall i :: i in order <==> 0 <= i < |fs|
      ensures ok <==> AllTrees(fs, {}, 0)
      ensures ok ==> forall p :: !Cycle(fs, p)
    {
      hide Tree, InOrder, Reached;
      NoCalls(fs);
      var i := 0;
      while i < |fs|
        invariant 0 <= i <= |fs| && Sized() && Calls(fs, Called(), order) && count >= 0
        invariant forall j: nat :: j < i ==> j in Called()
        invariant forall j :: 0 <= j < |search| ==> search[j] <= count
        invariant AllTrees(fs, {}, 0) <==> AllTrees(fs, Called(), i)
      {
        if !called[i] {
          ReachedSelf(fs, Called(), i);
          assert i in PulledIn(fs, Called(), i);
          ok := SearchFrom(i);
          if !ok {
            return;
          }
        }
        i := i + 1;
      }
      ok := true;
      forall p ensures !Cycle(fs, p) {
        if Cycle(fs, p) { NoCycle(fs, order, p); }
      }
    }
  }

  lemma NoCalls(fs: Functions)
    ensures Calls(fs, {}, [])
  {
  }

  lemma NoCycle(fs: Functions, order: seq<nat>, p: seq<nat>)
    requires InOrder(fs, order) && NoDup(order) && forall i :: 0 <= i < |fs| ==> i in order
    ensures !Cycle(fs, p)
  {
    if Cycle(fs, p) {
      assert p[0] in order;
      var a :| 0 <= a < |order| && order[a] == p[0];
      OrderHasNoCycle(fs, order, p, a, a);
    }
  }

  const DIAMOND: Functions := [Function("a", ["b", "c"]), Function("b", ["d"]), Function("c", ["d"]), Function("d", [])]

  /** Four functions without a cycle that start-up does not survive: two of them share a dependency. */
  lemma DiamondPanics()
    ensures !AllTrees(DIAMOND, {}, 0) && forall p :: !Cycle(DIAMOND, p)
  {
    var fs := DIAMOND;
    var ab, ac, bd, cd := Edge(0, 0), Edge(0, 1), Edge(1, 0), Edge(2, 0);
    DiamondTargets();
    ReachedSelf(fs, {}, 0);
    ReachedFurther(fs, {}, 0, ab);
    ReachedFurther(fs, {}, 0, ac);
    assert !Tree(fs, {}, 0);
    forall p ensures !Cycle(fs, p) {
      DiamondAcyclic(p);
    }
  }

  lemma DiamondTargets()
    ensures Resolve(DIAMOND, "b") == Some(1) && Resolve(DIAMOND, "c") == Some(2) && Resolve(DIAMOND, "d") == Some(3)
  {
    var fs := DIAMOND;
    assert fs[0].name == "a" && fs[1].name == "b" && fs[2].name == "c" && fs[3].name == "d";
  }

  lemma DiamondAcyclic(p: seq<nat>)
    ensures !Cycle(DIAMOND, p)
  {
    var fs, order := DIAMOND, [3, 2, 1, 0];
    DiamondTargets();
    forall a, e | 0 <= a < |order| && IsEdge(fs, e) && e.i == order[a]
      ensures Target(fs, e).Some? && Target(fs, e).value in order[..a]
    {
      assert order[..2] == [3, 2] && order[..3] == [3, 2, 1] && order[..1] == [3];
    }
    NoCycle(fs, order, p);
  }

  lemma NothingYet(fs: Functions, s: Search, f: nat)
    ensures PartlyExtends(fs, s, s, f, 0)
  {
  }

  lemma NotSeenYet(fs: Functions, s: Search, s': Search, f: nat, j: nat)
    requires PartlyExtends(fs, s, s', f, j) && f in s.m && f !in s.called && forall e :: e in s.seen ==> e.i != f
    ensures Edge(f, j) !in s'.seen && f in s'.m && f !in s'.called
  {
  }

  lemma TargetIs(fs: Functions, f: nat, j: nat)
    requires f < |fs| && j < |fs[f].deps|
    ensures Target(fs, Edge(f, j)) == Resolve(fs, fs[f].deps[j])
  {
  }

  lemma SameSearch(fs: Functions, s: Search, s': Search, f: nat, j: nat)
    requires PartlyExtends(fs, s, s', f, j)
    ensures s'.r == s.r && s'.done == s.done
  {
  }

  /** The marks grow and there are no more than functions. */
  lemma Smaller(fs: Functions, s: Search, s1: Search, f: nat, j: nat, x: nat)
    requires PartlyExtends(fs, s, s1, f, j) && Searching(fs, s1) && x !in s1.m && x < |fs|
    ensures |s.m| < |s1.m + {x}| <= |fs|
  {
    hide Searching;
    MarkedExist(fs, s1);
    Bounded(s1.m + {x}, |fs|);
    OneMore(s.m, s1.m, x);
  }

  lemma MarkedExist(fs: Functions, s: Search)
    requires Searching(fs, s)
    ensures forall i :: i in s.m ==> i < |fs|
  {
  }

  lemma OneMore(a: set<nat>, b: set<nat>, x: nat)
    requires a <= b && x !in b
    ensures |a| < |b + {x}|
  {
    assert b + {x} == a + (b - a) + {x};
  }

  lemma {:induction false} Bounded(m: set<nat>, n: nat)
    requires forall i :: i in m ==> i < n
    ensures |m| <= n
  {
    if n > 0 { Bounded(m - {n - 1}, n - 1); } else { assert m == {}; }
  }

  lemma FreshEdges(fs: Functions, s: Search, s1: Search, f: nat, j: nat, x: nat)
    requires Searching(fs, s1) && x !in s1.m && f in s1.m
    ensures forall e :: e in s1.seen + {Edge(f, j)} ==> e.i != x
  {
  }

  lemma AllLookedAt(fs: Functions, s: Search, s': Search, f: nat)
    requires f < |fs| && f in s.m && f !in s.called && PartlyExtends(fs, s, s', f, |fs[f].deps|)
    ensures f in s'.m && f !in s'.called
    ensures forall e :: IsEdge(fs, e) && e.i == f ==> Target(fs, e).Some? && Target(fs, e).value in s'.called
    ensures Extends(fs, s, s'.(called := s'.called + {f}, order := s'.order + [f]), f)
  {
  }
}