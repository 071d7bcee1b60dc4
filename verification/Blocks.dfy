/**
 The arithmetic of buddy blocks. A group manages m blocks of the largest order;
 the block (k, i) of order k consists of the pages p whose number, halved k
 times, is i, so block (k + 1, i / 2) is the one that (k, i) is a half of.
 */
module Blocks {
  /** PAGE_NSIZES: the number of block sizes. */
  const NSIZES: nat := 8

  function Up(p: nat, k: nat): nat { if k == 0 then p else Up(p, k - 1) / 2 }

  /** The first page of block (k, i). */
  function Down(i: nat, k: nat): nat
    decreases k
  {
    if k == 0 then i else Down(2 * i, k - 1)
  }

  /** How many blocks of order k a group of m largest blocks has room for. */
  function Count(m: nat, k: nat): nat
    requires k < NSIZES
    decreases NSIZES - k
  {
    if k == NSIZES - 1 then m else 2 * Count(m, k + 1)
  }

  ghost function Pages(m: nat, k: nat, i: nat): set<nat>
  {
    set p: nat | p < Count(m, 0) && Up(p, k) == i
  }

  /** No page of s lies in block (k, i). */
  ghost predicate Clear(s: set<nat>, k: nat, i: nat)
  {
    forall p :: p in s ==> Up(p, k) != i
  }

  /** Block (k, i) is clear of s and not half of a larger block that is. */
  ghost predicate Maximal(m: nat, s: set<nat>, k: nat, i: nat)
  {
    && k < NSIZES
    && i < Count(m, k)
    && Clear(s, k, i)
    && (k == NSIZES - 1 || !Clear(s, k + 1, i / 2))
  }

  function Sibling(i: nat): nat { if i % 2 == 1 then i - 1 else i + 1 }

  lemma {:induction false} UpHalf(i: nat, k: nat)
    ensures Up(2 * i + 1, k + 1) == Up(i, k)
  {
    if k > 0 { UpHalf(i, k - 1); }
  }

  lemma {:induction false} UpDown(i: nat, k: nat)
    ensures Up(Down(i, k), k) == i
    decreases k
  {
    if k > 0 { UpDown(2 * i, k - 1); }
  }

  /** Pages in the same block are in the same larger block. */
  lemma {:induction false} Coarser(p: nat, q: nat, k: nat, j: nat)
    requires Up(p, k) == Up(q, k) && k <= j
    ensures Up(p, j) == Up(q, j)
    decreases j
  {
    if k < j { Coarser(p, q, k, j - 1); }
  }

  lemma {:induction false} InRange(m: nat, p: nat, k: nat)
    requires k < NSIZES
    ensures p < Count(m, 0) <==> Up(p, k) < Count(m, k)
  {
    if k > 0 { InRange(m, p, k - 1); }
  }

  /** Every block in range has a page in the group. */
  lemma FirstPage(m: nat, k: nat, i: nat) returns (p: nat)
    requires k < NSIZES && i < Count(m, k)
    ensures p in Pages(m, k, i) && p == Down(i, k)
  {
    p := Down(i, k);
    UpDown(i, k);
    InRange(m, p, k);
  }

  /** A block inside a clear block is clear. */
  lemma ClearInside(s: set<nat>, p: nat, k: nat, j: nat)
    requires k <= j && Clear(s, j, Up(p, j))
    ensures Clear(s, k, Up(p, k))
  {
    forall q | q in s ensures Up(q, k) != Up(p, k) {
      if Up(q, k) == Up(p, k) { Coarser(p, q, k, j); }
    }
  }

  /** Two blocks share a page exactly when one contains the other. */
  lemma ClearUnion(m: nat, s: set<nat>, k: nat, i: nat, j: nat, x: nat)
    ensures Clear(s + Pages(m, k, i), j, x) <==> Clear(s, j, x) && Clear(Pages(m, k, i), j, x)
  {
    forall p | p in s || p in Pages(m, k, i) ensures p in s + Pages(m, k, i) {}
  }

  /**
   Taking a maximal block out of the clear pages takes that block, and nothing
   else, out of the maximal blocks.
   */
  lemma TakeMaximal(m: nat, s: set<nat>, k: nat, i: nat, j: nat, x: nat)
    requires Maximal(m, s, k, i)
    ensures Maximal(m, s, j, x) <==> Maximal(m, s + Pages(m, k, i), j, x) || (j == k && x == i)
  {
    var b := Pages(m, k, i);
    if j < NSIZES && x < Count(m, j) {
      ClearUnion(m, s, k, i, j, x);
      if j < NSIZES - 1 { ClearUnion(m, s, k, i, j + 1, x / 2); }
      var p := FirstPage(m, j, x);
      if j < k {
        TakeBelow(m, s, k, i, j, p);
      } else if j == k {
        TakeLevel(m, s, k, i, x, p);
      } else {
        TakeAbove(m, s, k, i, j, p);
      }
    }
  }

  lemma TakeBelow(m: nat, s: set<nat>, k: nat, i: nat, j: nat, p: nat)
    requires Maximal(m, s, k, i) && j < k && p < Count(m, 0)
    ensures Up(p, k) == i ==> Clear(s, j + 1, Up(p, j + 1)) && !Clear(Pages(m, k, i), j, Up(p, j))
    ensures Up(p, k) != i ==> Clear(Pages(m, k, i), j, Up(p, j)) && Clear(Pages(m, k, i), j + 1, Up(p, j + 1))
  {
    if Up(p, k) == i {
      ClearInside(s, p, j + 1, k);
      assert p in Pages(m, k, i);
    } else {
      forall q | q in Pages(m, k, i) ensures Up(q, j) != Up(p, j) && Up(q, j + 1) != Up(p, j + 1) {
        if Up(q, j + 1) == Up(p, j + 1) { Coarser(p, q, j + 1, k); }
      }
    }
  }

  lemma TakeLevel(m: nat, s: set<nat>, k: nat, i: nat, x: nat, p: nat)
    requires Maximal(m, s, k, i) && x < Count(m, k) && p in Pages(m, k, x)
    ensures x == i ==> !Clear(Pages(m, k, i), k, x)
    ensures x != i ==> Clear(Pages(m, k, i), k, x)
    ensures k < NSIZES - 1 ==>
              Clear(s, k + 1, x / 2) == (Clear(s, k + 1, x / 2) && Clear(Pages(m, k, i), k + 1, x / 2))
  {
    if x == i { assert Up(p, k) == x; }
  }

  lemma TakeAbove(m: nat, s: set<nat>, k: nat, i: nat, j: nat, p: nat)
    requires Maximal(m, s, k, i) && k < j < NSIZES && p < Count(m, 0)
    ensures Clear(s, j, Up(p, j)) ==> Clear(Pages(m, k, i), j, Up(p, j))
    ensures j < NSIZES - 1 && Clear(s, j + 1, Up(p, j + 1)) ==> Clear(Pages(m, k, i), j + 1, Up(p, j + 1))
  {
    StaysClear(m, s, k, i, j, p);
    if j < NSIZES - 1 { StaysClear(m, s, k, i, j + 1, p); }
  }

  /** A larger block that is clear of s cannot contain the maximal block (k, i). */
  lemma StaysClear(m: nat, s: set<nat>, k: nat, i: nat, j: nat, p: nat)
    requires Maximal(m, s, k, i) && k < j < NSIZES
    ensures Clear(s, j, Up(p, j)) ==> Clear(Pages(m, k, i), j, Up(p, j))
  {
    if Clear(s, j, Up(p, j)) {
      forall q | q in Pages(m, k, i) ensures Up(q, j) != Up(p, j) {
        if Up(q, j) == Up(p, j) { ClearInside(s, q, k + 1, j); }
      }
    }
  }

  /** Splitting (k + 1, i): with its other half taken, a half is maximal. */
  lemma TakeHalf(m: nat, s: set<nat>, k: nat, h: nat, j: nat, x: nat)
    requires k + 1 < NSIZES && h < Count(m, k) && Clear(s, k + 1, h / 2)
    ensures Maximal(m, s + Pages(m, k, h), j, x)
       <==> Maximal(m, s + Pages(m, k + 1, h / 2), j, x) || (j == k && x == Sibling(h))
  {
    var t := s + Pages(m, k, h);
    assert t + Pages(m, k, Sibling(h)) == s + Pages(m, k + 1, h / 2) by {
      forall p: nat ensures p in Pages(m, k + 1, h / 2) <==> p in Pages(m, k, h) || p in Pages(m, k, Sibling(h)) {}
    }
    HalfIsMaximal(m, s, k, h);
    TakeMaximal(m, t, k, Sibling(h), j, x);
  }

  lemma UpStep(p: nat, k: nat)
    ensures Up(p, k + 1) == Up(p, k) / 2
  {
  }

  lemma SiblingFits(m: nat, k: nat, h: nat)
    requires k + 1 < NSIZES && h < Count(m, k)
    ensures Sibling(h) < Count(m, k) && Sibling(h) != h && Sibling(h) / 2 == h / 2
  {
    assert Count(m, k) == 2 * Count(m, k + 1);
  }

  lemma HalfIsMaximal(m: nat, s: set<nat>, k: nat, h: nat)
    requires k + 1 < NSIZES && h < Count(m, k) && Clear(s, k + 1, h / 2)
    ensures Maximal(m, s + Pages(m, k, h), k, Sibling(h))
  {
    hide Up, Count, Sibling;
    var t := s + Pages(m, k, h);
    SiblingFits(m, k, h);
    forall q | q in t ensures Up(q, k) != Sibling(h) { UpStep(q, k); }
    var p := FirstPage(m, k, h);
    UpStep(p, k);
    assert p in t && Up(p, k + 1) == h / 2;
  }

  // What maximality means

  /** The blocks of a group cover every page outside s once: existence. */
  lemma {:induction false} CoveredFrom(m: nat, s: set<nat>, p: nat, k: nat) returns (j: nat)
    requires p < Count(m, 0) && k < NSIZES && Clear(s, k, Up(p, k))
    ensures k <= j < NSIZES && Maximal(m, s, j, Up(p, j))
    decreases NSIZES - k
  {
    if k < NSIZES - 1 && Clear(s, k + 1, Up(p, k + 1)) {
      j := CoveredFrom(m, s, p, k + 1);
    } else {
      j := k;
      InRange(m, p, k);
    }
  }

  lemma Covered(m: nat, s: set<nat>, p: nat) returns (j: nat)
    requires p < Count(m, 0) && p !in s
    ensures j < NSIZES && Maximal(m, s, j, Up(p, j))
  {
    j := CoveredFrom(m, s, p, 0);
  }

  /** Uniqueness: no page lies in two maximal blocks, or in one and in s. */
  lemma CoveredOnce(m: nat, s: set<nat>, p: nat, j: nat, k: nat)
    requires Maximal(m, s, j, Up(p, j)) && Maximal(m, s, k, Up(p, k))
    ensures j == k && p !in s
  {
    if j < k {
      NotBelow(m, s, p, j, k);
    } else if k < j {
      NotBelow(m, s, p, k, j);
    }
  }

  lemma NotBelow(m: nat, s: set<nat>, p: nat, j: nat, k: nat)
    requires j < k < NSIZES && Clear(s, k, Up(p, k))
    ensures !Maximal(m, s, j, Up(p, j))
  {
    ClearInside(s, p, j + 1, k);
    assert Up(p, j + 1) == Up(p, j) / 2;
  }

  /** Two halves of one block are never both maximal. */
  lemma NoFreeBuddies(m: nat, s: set<nat>, k: nat, i: nat)
    requires k + 1 < NSIZES
    ensures !(Maximal(m, s, k, i) && Maximal(m, s, k, Sibling(i)))
  {
    if Maximal(m, s, k, i) && Maximal(m, s, k, Sibling(i)) {
      forall p | p in s ensures Up(p, k + 1) != i / 2 {
        assert Up(p, k) != i && Up(p, k) != Sibling(i);
      }
    }
  }

  /** A clear block lies in a maximal block at least as large. */
  lemma FitsInMaximal(m: nat, s: set<nat>, k: nat, i: nat) returns (j: nat, x: nat)
    requires k < NSIZES && i < Count(m, k) && Clear(s, k, i)
    ensures k <= j < NSIZES && Maximal(m, s, j, x)
  {
    var p := FirstPage(m, k, i);
    j := CoveredFrom(m, s, p, k);
    x := Up(p, j);
  }

  /** With nothing taken, the maximal blocks are the largest ones. */
  lemma NothingTaken(m: nat, k: nat, i: nat)
    ensures Maximal(m, {}, k, i) <==> k == NSIZES - 1 && i < m
  {
  }
}
