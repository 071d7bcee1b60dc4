/**
 The free lists and buddy bit maps of one page group as values: what it means
 for them to describe a set of taken pages, and how each single-block update of
 the allocator changes that.
 */
module FreeLists {
  import opened Arith
  import opened Blocks
  import opened Lists

  type FreeList = seq<seq<nat>>
  type Maps = seq<seq<bool>>

  // All lists of a group

  /** The lists hold addresses of blocks of the right order, each once. */
  ghost predicate WellFormed(base: nat, m: nat, fl: FreeList)
  {
    && |fl| == NSIZES
    && (forall k :: 0 <= k < NSIZES ==> NoDup(fl[k]))
    && (forall k, a :: 0 <= k < NSIZES && a in fl[k] ==> IsBlock(base, m, k, a))
  }

  ghost predicate IsBlock(base: nat, m: nat, k: nat, a: nat)
    requires k < NSIZES
  {
    exists i: nat :: i < Count(m, k) && a == base + Down(i, k)
  }

  ghost predicate FreeAt(base: nat, fl: FreeList, k: nat, i: nat)
    requires k < |fl|
  {
    base + Down(i, k) in fl[k]
  }

  /** Each bit of map k + 1 says whether exactly one half of its block is on free list k. */
  ghost predicate BitsMatch(base: nat, m: nat, fl: FreeList, bits: Maps)
    requires |fl| == NSIZES
  {
    && |bits| == NSIZES
    && (forall k :: 0 < k < NSIZES ==> |bits[k]| >= Count(m, k))
    && (forall k: nat, i: nat :: k + 1 < NSIZES && i < Count(m, k + 1) ==>
          BitMatches(base, fl, bits, k, i))
  }

  ghost predicate BitMatches(base: nat, fl: FreeList, bits: Maps, k: nat, i: nat)
    requires k + 1 < |bits| && i < |bits[k + 1]| && k < |fl|
  {
    bits[k + 1][i] == (FreeAt(base, fl, k, 2 * i) != FreeAt(base, fl, k, 2 * i + 1))
  }

  /** The free blocks are the maximal blocks clear of s. */
  ghost predicate Exact(base: nat, m: nat, fl: FreeList, s: set<nat>)
    requires |fl| == NSIZES
  {
    forall k: nat, i: nat :: k < NSIZES && i < Count(m, k) ==>
      (FreeAt(base, fl, k, i) <==> Maximal(m, s, k, i))
  }

  /** The same with the clear block (ck, ci) on its list although it need not be maximal. */
  ghost predicate ExactPlus(base: nat, m: nat, fl: FreeList, s: set<nat>, ck: nat, ci: nat)
    requires |fl| == NSIZES
  {
    && ck < NSIZES && ci < Count(m, ck) && Clear(s, ck, ci)
    && forall k: nat, i: nat :: k < NSIZES && i < Count(m, k) ==>
         (FreeAt(base, fl, k, i) <==> Maximal(m, s + Pages(m, ck, ci), k, i) || (k == ck && i == ci))
  }

  /** Free pages on the lists of order below n. */
  function Total(fl: FreeList, n: nat): int
    requires n <= |fl|
  {
    if n == 0 then 0 else Total(fl, n - 1) + |fl[n - 1]| * Pow2(n - 1)
  }

  // Addresses

  lemma {:induction false} DownIs(i: nat, k: nat)
    ensures Down(i, k) == i * Pow2(k)
    decreases k
  {
    if k > 0 { DownIs(2 * i, k - 1); }
  }

  lemma DownInjective(i: nat, j: nat, k: nat)
    requires Down(i, k) == Down(j, k)
    ensures i == j
  {
    UpDown(i, k);
    UpDown(j, k);
  }

  /** The index computed from an address at its own order and at the next. */
  lemma Index(i: nat, k: nat)
    ensures Pow2(k) >= 1 && Pow2(k + 1) >= 1
    ensures Down(i, k) / Pow2(k) == i && Down(i, k) / Pow2(k + 1) == i / 2
  {
    DownIs(i, k);
    Pow2Positive(k);
    DivModUnique(i * Pow2(k), Pow2(k), i, 0);
    var p, h, r := Pow2(k), i / 2, i % 2;
    assert i * p == h * (2 * p) + r * p by { assert (2 * h + r) * p == h * (2 * p) + r * p; }
    DivModUnique(i * p, 2 * p, h, r * p);
  }

  /** The buddy's address, and the address of the block the two halves make. */
  lemma BuddyAddress(i: nat, k: nat)
    ensures Down(Sibling(i), k) == Down(i, k) + (if i % 2 == 1 then -Pow2(k) else Pow2(k))
    ensures Down(i / 2, k + 1) == if i % 2 == 1 then Down(Sibling(i), k) else Down(i, k)
    ensures Pow2(k) >= 1
  {
    DownIs(i, k);
    DownIs(Sibling(i), k);
    Pow2Positive(k);
    assert Down(i / 2, k + 1) == Down(2 * (i / 2), k);
    if i % 2 == 1 { assert (i - 1) * Pow2(k) == i * Pow2(k) - Pow2(k); }
    else { assert (i + 1) * Pow2(k) == i * Pow2(k) + Pow2(k); }
  }

  // Single-block updates

  ghost predicate Toggled(base: nat, m: nat, fl: FreeList, fl': FreeList, k: nat, i: nat)
    requires |fl| == |fl'| == NSIZES
  {
    forall j: nat, x: nat :: j < NSIZES && x < Count(m, j) ==>
      (FreeAt(base, fl', j, x) <==> (FreeAt(base, fl, j, x) != (j == k && x == i)))
  }

  function Flip(bits: Maps, k: nat, i: nat): Maps
    requires k + 1 < NSIZES ==> k + 1 < |bits| && i / 2 < |bits[k + 1]|
  {
    if k + 1 < NSIZES then bits[k + 1 := bits[k + 1][i / 2 := !bits[k + 1][i / 2]]] else bits
  }

  lemma ToggledAt(base: nat, m: nat, fl: FreeList, fl': FreeList, k: nat, i: nat, j: nat, x: nat)
    requires |fl| == |fl'| == NSIZES && Toggled(base, m, fl, fl', k, i) && j < NSIZES && x < Count(m, j)
    ensures FreeAt(base, fl', j, x) <==> (FreeAt(base, fl, j, x) != (j == k && x == i))
  {
  }

  lemma Unlinked(base: nat, m: nat, fl: FreeList, k: nat, i: nat)
    requires WellFormed(base, m, fl) && k < NSIZES && FreeAt(base, fl, k, i)
    ensures var fl' := fl[k := Without<nat>(fl[k], base + Down(i, k))];
            && WellFormed(base, m, fl')
            && Toggled(base, m, fl, fl', k, i)
            && Total(fl', NSIZES) == Total(fl, NSIZES) - Pow2(k)
  {
    var a := base + Down(i, k);
    var fl' := fl[k := Without<nat>(fl[k], a)];
    forall x: nat | base + Down(x, k) == a ensures x == i { DownInjective(x, i, k); }
    TotalUpdate(fl, k, Without<nat>(fl[k], a), NSIZES);
    assert -1 * Pow2(k) == -Pow2(k);
  }

  lemma Linked(base: nat, m: nat, fl: FreeList, k: nat, i: nat)
    requires WellFormed(base, m, fl) && k < NSIZES && i < Count(m, k) && !FreeAt(base, fl, k, i)
    ensures var fl' := fl[k := [base + Down(i, k)] + fl[k]];
            && WellFormed(base, m, fl')
            && Toggled(base, m, fl, fl', k, i)
            && Total(fl', NSIZES) == Total(fl, NSIZES) + Pow2(k)
  {
    hide Total, Pow2, Down;
    var a := base + Down(i, k);
    forall x: nat | base + Down(x, k) == a ensures x == i { DownInjective(x, i, k); }
    assert IsBlock(base, m, k, a);
    LinkedTotal(fl, k, a);
  }

  lemma LinkedTotal(fl: FreeList, k: nat, a: nat)
    requires k < NSIZES == |fl|
    ensures Total(fl[k := [a] + fl[k]], NSIZES) == Total(fl, NSIZES) + Pow2(k)
  {
    hide Total, Pow2;
    TotalUpdate(fl, k, [a] + fl[k], NSIZES);
  }

  lemma {:induction false} TotalUpdate(fl: FreeList, k: nat, l: seq<nat>, n: nat)
    requires k < |fl| && n <= |fl|
    ensures Total(fl[k := l], n) == Total(fl, n) + (if k < n then (|l| - |fl[k]|) * Pow2(k) else 0)
  {
    if n > 0 { TotalUpdate(fl, k, l, n - 1); }
  }

  /** A block entering or leaving its list, and its parent's bit flipped, keep the maps right. */
  lemma BitFlipped(base: nat, m: nat, fl: FreeList, fl': FreeList, bits: Maps, k: nat, i: nat)
    requires |fl| == |fl'| == NSIZES && BitsMatch(base, m, fl, bits)
    requires k < NSIZES && i < Count(m, k) && Toggled(base, m, fl, fl', k, i)
    ensures k + 1 < NSIZES ==> i / 2 < Count(m, k + 1)
    ensures BitsMatch(base, m, fl', Flip(bits, k, i))
  {
    if k + 1 < NSIZES { assert Count(m, k) == 2 * Count(m, k + 1); }
    var bits' := Flip(bits, k, i);
    forall j: nat, x: nat | j + 1 < NSIZES && x < Count(m, j + 1) ensures BitMatches(base, fl', bits', j, x) {
      assert Count(m, j) == 2 * Count(m, j + 1);
      assert BitMatches(base, fl, bits, j, x);
    }
  }

  lemma FlipTwice(bits: Maps, k: nat, i: nat, j: nat)
    requires k + 1 < NSIZES ==> k + 1 < |bits| && i / 2 < |bits[k + 1]|
    requires i / 2 == j / 2
    ensures Flip(Flip(bits, k, i), k, j) == bits
  {
    if k + 1 < NSIZES {
      var l := bits[k + 1];
      assert l[i / 2 := !l[i / 2]][i / 2 := l[i / 2]] == l;
    }
  }

  // Whole steps of the allocator

  /** A listed maximal block can be regarded as the extra one. */
  lemma SelectBlock(base: nat, m: nat, fl: FreeList, s: set<nat>, k: nat, i: nat)
    requires |fl| == NSIZES && Exact(base, m, fl, s) && k < NSIZES && i < Count(m, k) && FreeAt(base, fl, k, i)
    ensures ExactPlus(base, m, fl, s, k, i)
  {
    forall j: nat, x: nat | j < NSIZES && x < Count(m, j)
      ensures FreeAt(base, fl, j, x) <==> Maximal(m, s + Pages(m, k, i), j, x) || (j == k && x == i)
    {
      TakeMaximal(m, s, k, i, j, x);
    }
  }

  function UnlinkBlock(base: nat, fl: FreeList, k: nat, i: nat): FreeList
    requires k < |fl|
  {
    fl[k := Without<nat>(fl[k], base + Down(i, k))]
  }

  function LinkBlock(base: nat, fl: FreeList, k: nat, i: nat): FreeList
    requires k < |fl|
  {
    fl[k := [base + Down(i, k)] + fl[k]]
  }

  /** Taking the extra block off its list. */
  lemma TakeBlock(base: nat, m: nat, fl: FreeList, bits: Maps, s: set<nat>, k: nat, i: nat)
    requires WellFormed(base, m, fl) && BitsMatch(base, m, fl, bits) && ExactPlus(base, m, fl, s, k, i)
    ensures FreeAt(base, fl, k, i)
    ensures WellFormed(base, m, UnlinkBlock(base, fl, k, i))
    ensures k + 1 < NSIZES ==> i / 2 < Count(m, k + 1)
    ensures BitsMatch(base, m, UnlinkBlock(base, fl, k, i), Flip(bits, k, i))
    ensures Exact(base, m, UnlinkBlock(base, fl, k, i), s + Pages(m, k, i))
    ensures Total(UnlinkBlock(base, fl, k, i), NSIZES) == Total(fl, NSIZES) - Pow2(k)
  {
    hide WellFormed, BitsMatch, Exact, ExactPlus, Toggled, Clear, Maximal, FreeAt, Total, Count, Pow2, Without, Down,
         Pages;
    Lengths(base, m, fl);
    OneMore(base, m, fl, s, k, i);
    var fl' := UnlinkBlock(base, fl, k, i);
    Unlinked(base, m, fl, k, i);
    BitFlipped(base, m, fl, fl', bits, k, i);
    UnlinkedExact(base, m, fl, fl', s, k, i);
  }

  lemma Lengths(base: nat, m: nat, fl: FreeList)
    requires WellFormed(base, m, fl)
    ensures |fl| == NSIZES
  {
  }

  lemma OneMore(base: nat, m: nat, fl: FreeList, s: set<nat>, k: nat, i: nat)
    requires |fl| == NSIZES && ExactPlus(base, m, fl, s, k, i)
    ensures k < NSIZES && i < Count(m, k) && FreeAt(base, fl, k, i)
  {
  }

  lemma NotClear(m: nat, s: set<nat>, k: nat, i: nat)
    requires k < NSIZES && i < Count(m, k)
    ensures !Clear(s + Pages(m, k, i), k, i)
  {
    var p := FirstPage(m, k, i);
    assert p in s + Pages(m, k, i) && Up(p, k) == i;
  }

  lemma UnlinkedExact(base: nat, m: nat, fl: FreeList, fl': FreeList, s: set<nat>, k: nat, i: nat)
    requires |fl| == |fl'| == NSIZES && ExactPlus(base, m, fl, s, k, i) && Toggled(base, m, fl, fl', k, i)
    ensures Exact(base, m, fl', s + Pages(m, k, i))
  {
    hide Clear, FreeAt, Count, Pages;
    NotClear(m, s, k, i);
  }

  lemma NotListed(base: nat, m: nat, fl: FreeList, s: set<nat>, k: nat, i: nat)
    requires |fl| == NSIZES && k < NSIZES && i < Count(m, k) && Exact(base, m, fl, s + Pages(m, k, i))
    ensures !FreeAt(base, fl, k, i)
  {
    hide Clear, FreeAt, Count, Pages;
    NotClear(m, s, k, i);
  }

  lemma LinkedExact(base: nat, m: nat, fl: FreeList, fl': FreeList, s: set<nat>, k: nat, i: nat)
    requires |fl| == |fl'| == NSIZES && k < NSIZES && i < Count(m, k) && Clear(s, k, i)
    requires Exact(base, m, fl, s + Pages(m, k, i)) && Toggled(base, m, fl, fl', k, i)
    ensures ExactPlus(base, m, fl', s, k, i)
  {
    hide Clear, FreeAt, Count, Pages;
    NotClear(m, s, k, i);
  }

  /** Putting a block back: the reverse of TakeBlock. */
  lemma PutBlock(base: nat, m: nat, fl: FreeList, bits: Maps, s: set<nat>, k: nat, i: nat)
    requires WellFormed(base, m, fl) && BitsMatch(base, m, fl, bits) && k < NSIZES && i < Count(m, k)
    requires Clear(s, k, i) && Exact(base, m, fl, s + Pages(m, k, i))
    ensures WellFormed(base, m, LinkBlock(base, fl, k, i))
    ensures k + 1 < NSIZES ==> i / 2 < Count(m, k + 1)
    ensures BitsMatch(base, m, LinkBlock(base, fl, k, i), Flip(bits, k, i))
    ensures ExactPlus(base, m, LinkBlock(base, fl, k, i), s, k, i)
    ensures Total(LinkBlock(base, fl, k, i), NSIZES) == Total(fl, NSIZES) + Pow2(k)
  {
    hide WellFormed, BitsMatch, Exact, ExactPlus, Toggled, Clear, Maximal, FreeAt, Total, Count, Pow2, Without, Down,
         Pages;
    Lengths(base, m, fl);
    NotListed(base, m, fl, s, k, i);
    var fl' := LinkBlock(base, fl, k, i);
    Linked(base, m, fl, k, i);
    BitFlipped(base, m, fl, fl', bits, k, i);
    LinkedExact(base, m, fl, fl', s, k, i);
  }

  /** Both halves of a block that has been taken off its list, put on theirs. */
  function LinkHalves(base: nat, fl: FreeList, k: nat, i: nat): FreeList
    requires 0 < k < |fl|
  {
    LinkBlock(base, LinkBlock(base, fl, k - 1, 2 * i), k - 1, 2 * i + 1)
  }

  lemma SplitBlock(base: nat, m: nat, fl: FreeList, bits: Maps, s: set<nat>, k: nat, i: nat)
    requires |fl| == NSIZES && WellFormed(base, m, fl) && BitsMatch(base, m, fl, bits) && 0 < k < NSIZES
    requires i < Count(m, k)
    requires Clear(s, k, i) && Exact(base, m, fl, s + Pages(m, k, i))
    ensures !bits[k][i]
    ensures var fl' := LinkHalves(base, fl, k, i);
            && WellFormed(base, m, fl') && BitsMatch(base, m, fl', bits)
            && ExactPlus(base, m, fl', s, k - 1, 2 * i + 1)
            && Total(fl', NSIZES) == Total(fl, NSIZES) + Pow2(k)
  {
    hide WellFormed, BitsMatch, Exact, ExactPlus, Toggled, Clear, Maximal, FreeAt, Total, Count, Pow2, Without, Down,
         Pages;
    var l, r := 2 * i, 2 * i + 1;
    SplitReady(base, m, fl, bits, s, k, i);
    Linked(base, m, fl, k - 1, l);
    var fl1 := LinkBlock(base, fl, k - 1, l);
    BitFlipped(base, m, fl, fl1, bits, k - 1, l);
    ToggledAt(base, m, fl, fl1, k - 1, l, k - 1, r);
    Linked(base, m, fl1, k - 1, r);
    var fl2 := LinkBlock(base, fl1, k - 1, r);
    BitFlipped(base, m, fl1, fl2, Flip(bits, k - 1, l), k - 1, r);
    FlipTwice(bits, k - 1, l, r);
    SplitExact(base, m, fl, fl1, fl2, s, k, i);
  }

  /** Neither half of a block being split is on its list, so the bit over them is clear. */
  lemma SplitReady(base: nat, m: nat, fl: FreeList, bits: Maps, s: set<nat>, k: nat, i: nat)
    requires |fl| == NSIZES && BitsMatch(base, m, fl, bits) && 0 < k < NSIZES && i < Count(m, k)
    requires Exact(base, m, fl, s + Pages(m, k, i))
    ensures |bits| == NSIZES && i < |bits[k]| && !bits[k][i]
    ensures 2 * i + 1 < Count(m, k - 1) && Pow2(k) == 2 * Pow2(k - 1)
    ensures !FreeAt(base, fl, k - 1, 2 * i) && !FreeAt(base, fl, k - 1, 2 * i + 1)
  {
    assert Count(m, k - 1) == 2 * Count(m, k);
    HalvesNotMaximal(m, s, k, i);
    assert BitMatches(base, fl, bits, k - 1, i);
  }

  lemma JoinReady(base: nat, m: nat, fl: FreeList, bits: Maps, s: set<nat>, k: nat, i: nat)
    requires |fl| == NSIZES && BitsMatch(base, m, fl, bits) && ExactPlus(base, m, fl, s, k, i)
    requires k + 1 < NSIZES && i / 2 < Count(m, k + 1)
    ensures |bits| == NSIZES && i / 2 < |bits[k + 1]|
    ensures FreeAt(base, fl, k, i) && i < Count(m, k) && Pow2(k + 1) == 2 * Pow2(k)
  {
  }

  lemma HalvesNotMaximal(m: nat, s: set<nat>, k: nat, i: nat)
    requires 0 < k < NSIZES && i < Count(m, k)
    ensures !Maximal(m, s + Pages(m, k, i), k - 1, 2 * i) && !Maximal(m, s + Pages(m, k, i), k - 1, 2 * i + 1)
  {
    assert Count(m, k - 1) == 2 * Count(m, k);
    var p := FirstPage(m, k - 1, 2 * i);
    var q := FirstPage(m, k - 1, 2 * i + 1);
    assert p in Pages(m, k, i) && q in Pages(m, k, i);
  }

  lemma SplitExact(base: nat, m: nat, fl: FreeList, fl1: FreeList, fl2: FreeList, s: set<nat>, k: nat, i: nat)
    requires |fl| == |fl1| == |fl2| == NSIZES && 0 < k < NSIZES && i < Count(m, k) && 2 * i + 1 < Count(m, k - 1)
    requires Clear(s, k, i) && Exact(base, m, fl, s + Pages(m, k, i))
    requires Toggled(base, m, fl, fl1, k - 1, 2 * i) && Toggled(base, m, fl1, fl2, k - 1, 2 * i + 1)
    ensures ExactPlus(base, m, fl2, s, k - 1, 2 * i + 1)
  {
    var r := 2 * i + 1;
    assert Clear(s, k - 1, r) by { forall p | p in s ensures Up(p, k - 1) != r { assert Up(p, k) != i; } }
    forall j: nat, x: nat | j < NSIZES && x < Count(m, j)
      ensures FreeAt(base, fl2, j, x) <==> Maximal(m, s + Pages(m, k - 1, r), j, x) || (j == k - 1 && x == r)
    {
      SplitExactAt(base, m, fl, fl1, fl2, s, k, i, j, x);
    }
  }

  lemma SplitExactAt(base: nat, m: nat, fl: FreeList, fl1: FreeList, fl2: FreeList, s: set<nat>, k: nat, i: nat,
                     j: nat, x: nat)
    requires |fl| == |fl1| == |fl2| == NSIZES && 0 < k < NSIZES && i < Count(m, k) && 2 * i + 1 < Count(m, k - 1)
    requires j < NSIZES && x < Count(m, j)
    requires Clear(s, k, i) && Exact(base, m, fl, s + Pages(m, k, i))
    requires Toggled(base, m, fl, fl1, k - 1, 2 * i) && Toggled(base, m, fl1, fl2, k - 1, 2 * i + 1)
    ensures FreeAt(base, fl2, j, x)
       <==> Maximal(m, s + Pages(m, k - 1, 2 * i + 1), j, x) || (j == k - 1 && x == 2 * i + 1)
  {
    hide Exact, Maximal, Toggled, Clear, FreeAt, Count, Pages;
    HalvesNotMaximal(m, s, k, i);
    TakeHalf(m, s, k - 1, 2 * i + 1, j, x);
    ExactAt(base, m, fl, s + Pages(m, k, i), j, x);
    ToggledAt(base, m, fl, fl1, k - 1, 2 * i, j, x);
    ToggledAt(base, m, fl1, fl2, k - 1, 2 * i + 1, j, x);
  }

  lemma ExactAt(base: nat, m: nat, fl: FreeList, s: set<nat>, k: nat, i: nat)
    requires |fl| == NSIZES && Exact(base, m, fl, s) && k < NSIZES && i < Count(m, k)
    ensures FreeAt(base, fl, k, i) <==> Maximal(m, s, k, i)
  {
  }

  /** The join test: a clear bit over a free block means that its buddy is on the same list. */
  lemma ClearBitMeansBuddy(base: nat, m: nat, fl: FreeList, bits: Maps, s: set<nat>, k: nat, i: nat)
    requires |fl| == NSIZES && BitsMatch(base, m, fl, bits) && ExactPlus(base, m, fl, s, k, i) && k + 1 < NSIZES
    ensures i / 2 < Count(m, k + 1) && Sibling(i) < Count(m, k)
    ensures !bits[k + 1][i / 2] <==> FreeAt(base, fl, k, Sibling(i))
    ensures FreeAt(base, fl, k, Sibling(i)) <==> Clear(s, k + 1, i / 2)
  {
    assert Count(m, k) == 2 * Count(m, k + 1);
    assert BitMatches(base, fl, bits, k, i / 2);
    assert FreeAt(base, fl, k, i);
    BuddyClear(m, s, k, i);
  }

  lemma BuddyClear(m: nat, s: set<nat>, k: nat, i: nat)
    requires k + 1 < NSIZES && i < Count(m, k) && Sibling(i) < Count(m, k) && Clear(s, k, i)
    ensures Maximal(m, s + Pages(m, k, i), k, Sibling(i)) <==> Clear(s, k + 1, i / 2)
  {
    if Clear(s, k + 1, i / 2) {
      HalfIsMaximal(m, s, k, i);
    } else {
      var p :| p in s && Up(p, k + 1) == i / 2;
      assert p in s + Pages(m, k, i);
      assert Up(p, k) == Sibling(i);
    }
  }

  /** When the buddy is not free, the block is maximal and the lists are exact. */
  lemma JoinDone(base: nat, m: nat, fl: FreeList, s: set<nat>, k: nat, i: nat)
    requires |fl| == NSIZES && ExactPlus(base, m, fl, s, k, i)
    requires k + 1 < NSIZES ==> !Clear(s, k + 1, i / 2)
    ensures Exact(base, m, fl, s)
  {
    forall j: nat, x: nat | j < NSIZES && x < Count(m, j)
      ensures FreeAt(base, fl, j, x) <==> Maximal(m, s, j, x)
    {
      TakeMaximal(m, s, k, i, j, x);
    }
  }

  function JoinBlocks(base: nat, fl: FreeList, k: nat, i: nat): FreeList
    requires k + 1 < |fl|
  {
    LinkBlock(base, UnlinkBlock(base, UnlinkBlock(base, fl, k, i), k, Sibling(i)), k + 1, i / 2)
  }

  /** Replacing two free halves by the block they make. */
  lemma JoinStep(base: nat, m: nat, fl: FreeList, bits: Maps, s: set<nat>, k: nat, i: nat)
    requires |fl| == NSIZES && WellFormed(base, m, fl) && BitsMatch(base, m, fl, bits)
    requires ExactPlus(base, m, fl, s, k, i)
    requires k + 1 < NSIZES && Sibling(i) < Count(m, k) && i / 2 < Count(m, k + 1)
    requires Clear(s, k + 1, i / 2) && FreeAt(base, fl, k, Sibling(i))
    ensures k + 2 < NSIZES ==> i / 2 / 2 < Count(m, k + 2)
    ensures var fl' := JoinBlocks(base, fl, k, i);
            && WellFormed(base, m, fl')
            && BitsMatch(base, m, fl', Flip(bits, k + 1, i / 2))
            && ExactPlus(base, m, fl', s, k + 1, i / 2)
            && Total(fl', NSIZES) == Total(fl, NSIZES)
  {
    hide WellFormed, BitsMatch, Exact, ExactPlus, Toggled, Clear, Maximal, FreeAt, Total, Count, Pow2, Without, Down,
         Pages;
    var b := Sibling(i);
    JoinReady(base, m, fl, bits, s, k, i);
    var fl1 := UnlinkBlock(base, fl, k, i);
    Unlinked(base, m, fl, k, i);
    BitFlipped(base, m, fl, fl1, bits, k, i);
    ToggledAt(base, m, fl, fl1, k, i, k, b);
    var fl2 := UnlinkBlock(base, fl1, k, b);
    Unlinked(base, m, fl1, k, b);
    BitFlipped(base, m, fl1, fl2, Flip(bits, k, i), k, b);
    FlipTwice(bits, k, i, b);
    JoinExact(base, m, fl, fl1, fl2, s, k, i);
    PutBlock(base, m, fl2, bits, s, k + 1, i / 2);
  }

  lemma JoinExact(base: nat, m: nat, fl: FreeList, fl1: FreeList, fl2: FreeList, s: set<nat>, k: nat, i: nat)
    requires |fl| == |fl1| == |fl2| == NSIZES && ExactPlus(base, m, fl, s, k, i)
    requires k + 1 < NSIZES && Clear(s, k + 1, i / 2) && Sibling(i) < Count(m, k) && i / 2 < Count(m, k + 1)
    requires Toggled(base, m, fl, fl1, k, i) && Toggled(base, m, fl1, fl2, k, Sibling(i))
    ensures Exact(base, m, fl2, s + Pages(m, k + 1, i / 2))
  {
    forall j: nat, x: nat | j < NSIZES && x < Count(m, j)
      ensures FreeAt(base, fl2, j, x) <==> Maximal(m, s + Pages(m, k + 1, i / 2), j, x)
    {
      JoinExactAt(base, m, fl, fl1, fl2, s, k, i, j, x);
    }
  }

  lemma JoinExactAt(base: nat, m: nat, fl: FreeList, fl1: FreeList, fl2: FreeList, s: set<nat>, k: nat, i: nat,
                    j: nat, x: nat)
    requires |fl| == |fl1| == |fl2| == NSIZES && ExactPlus(base, m, fl, s, k, i)
    requires k + 1 < NSIZES && Clear(s, k + 1, i / 2) && Sibling(i) < Count(m, k) && i / 2 < Count(m, k + 1)
    requires j < NSIZES && x < Count(m, j)
    requires Toggled(base, m, fl, fl1, k, i) && Toggled(base, m, fl1, fl2, k, Sibling(i))
    ensures FreeAt(base, fl2, j, x) <==> Maximal(m, s + Pages(m, k + 1, i / 2), j, x)
  {
    hide ExactPlus, Maximal, Toggled, Clear, FreeAt, Count, Pages;
    ExactPlusAt(base, m, fl, s, k, i, j, x);
    HalvesNotMaximal(m, s, k + 1, i / 2);
    TakeHalf(m, s, k, i, j, x);
    ToggledAt(base, m, fl, fl1, k, i, j, x);
    ToggledAt(base, m, fl1, fl2, k, Sibling(i), j, x);
  }

  lemma ExactPlusAt(base: nat, m: nat, fl: FreeList, s: set<nat>, ck: nat, ci: nat, k: nat, i: nat)
    requires |fl| == NSIZES && ExactPlus(base, m, fl, s, ck, ci) && k < NSIZES && i < Count(m, k)
    ensures ci < Count(m, ck)
    ensures FreeAt(base, fl, k, i) <==> Maximal(m, s + Pages(m, ck, ci), k, i) || (k == ck && i == ci)
  {
  }
}
