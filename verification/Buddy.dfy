/**
 The buddy page allocator (kernel/mm/page.c). Addresses are page numbers: every
 address the allocator handles is page aligned.
 */
module Buddy {
  import opened Arith
  import opened Blocks
  import opened FreeLists
  import opened Lists
  import opened Options

  // The initial lists

  /** The block of order k that is left over when npages is not a multiple of twice its size. */
  function Leftover(base: nat, npages: nat, k: nat): seq<nat>
  {
    if Up(npages, k) % 2 == 1 then [base + Down(Up(npages, k) - 1, k)] else []
  }

  /** The first n blocks of order k, last first. */
  function AllBlocks(base: nat, k: nat, n: nat): seq<nat>
  {
    if n == 0 then [] else [base + Down(n - 1, k)] + AllBlocks(base, k, n - 1)
  }

  function InitialLists(base: nat, npages: nat): (fl: FreeList)
    ensures |fl| == NSIZES
  {
    seq(NSIZES, k requires 0 <= k < NSIZES =>
      if k < NSIZES - 1 then Leftover(base, npages, k) else AllBlocks(base, k, Up(npages, k)))
  }

  lemma {:induction false} UpIs(p: nat, k: nat)
    ensures Pow2(k) >= 1 && Up(p, k) == p / Pow2(k)
  {
    Pow2Positive(k);
    if k > 0 {
      UpIs(p, k - 1);
      HalfOfQuotient(p, Pow2(k - 1));
    }
  }

  lemma HalfOfQuotient(p: nat, d: int)
    requires d >= 1
    ensures p / d / 2 == p / (2 * d)
  {
    var q, r := p / d, p % d;
    assert p == d * q + r;
    var h, e := q / 2, q % 2;
    assert p == h * (2 * d) + (e * d + r) by { assert d * (2 * h + e) == h * (2 * d) + e * d; }
    DivModUnique(p, 2 * d, h, e * d + r);
  }

  /** Taking off the block of order k, if there is one, rounds down to the next order. */
  lemma RoundDown(npages: nat, k: nat)
    ensures Down(Up(npages, k), k) - (if Up(npages, k) % 2 == 1 then Pow2(k) else 0) == Down(Up(npages, k + 1), k + 1)
    ensures Up(npages, k) % 2 == 1 ==> Down(Up(npages, k) - 1, k) == Down(Up(npages, k + 1), k + 1)
  {
    var x := Up(npages, k);
    assert Down(x / 2, k + 1) == Down(2 * (x / 2), k);
    DownIs(x, k);
    DownIs(2 * (x / 2), k);
    if x % 2 == 1 { assert (x - 1) * Pow2(k) == x * Pow2(k) - Pow2(k); }
  }

  /** _pagegroup_create, from the loop that fills the small lists on. */
  method CreateLists(base: nat, npages: nat) returns (fl: FreeList)
    ensures fl == InitialLists(base, npages)
  {
    fl := seq(NSIZES, k => []);
    var end := base + npages;
    var order := 0;
    while order < NSIZES - 1
      invariant 0 <= order <= NSIZES - 1 && |fl| == NSIZES
      invariant end == base + Down(Up(npages, order), order)
      invariant forall k :: 0 <= k < order ==> fl[k] == Leftover(base, npages, k)
      invariant forall k :: order <= k < NSIZES ==> fl[k] == []
    {
      RoundDown(npages, order);
      UpIs(npages, order);
      if npages / Pow2(order) % 2 == 1 {
        end := end - Pow2(order);
        fl := fl[order := [end] + fl[order]];
      }
      order := order + 1;
    }
    var current := base;
    ghost var n := 0;
    DownIs(0, order);
    while current < end
      invariant n <= Up(npages, order) && current == base + Down(n, order)
      invariant |fl| == NSIZES && fl[order] == AllBlocks(base, order, n)
      invariant forall k :: 0 <= k < order ==> fl[k] == Leftover(base, npages, k)
      decreases end - current
    {
      DownIs(n, order);
      DownIs(n + 1, order);
      DownIs(Up(npages, order), order);
      Pow2Positive(order);
      assert (n + 1) * Pow2(order) == n * Pow2(order) + Pow2(order);
      fl := fl[order := [current] + fl[order]];
      current := current + Pow2(order);
      n := n + 1;
    }
    if n < Up(npages, order) {
      DownIs(n, order);
      DownIs(Up(npages, order), order);
      Pow2Positive(order);
      MulMono(n + 1, Up(npages, order), Pow2(order));
    }
  }

  /** The size of the largest block: a group should be a multiple of it. */
  const LARGEST: nat := 128

  lemma LargestIs()
    ensures Pow2(NSIZES - 1) == LARGEST
  {
    assert Pow2(4) == 16;
    Pow2Add(3, 4);
  }

  /** All bits start clear: they match the lists exactly when nothing is left over. */
  ghost predicate ClearBitsMatch(base: nat, fl: FreeList)
    requires |fl| == NSIZES
  {
    forall k: nat, i: nat :: k + 1 < NSIZES ==> (FreeAt(base, fl, k, 2 * i) <==> FreeAt(base, fl, k, 2 * i + 1))
  }

  lemma InitialBitsMatch(base: nat, npages: nat)
    ensures ClearBitsMatch(base, InitialLists(base, npages)) <==> npages % LARGEST == 0
  {
    var fl := InitialLists(base, npages);
    LargestIs();
    if ClearBitsMatch(base, fl) {
      forall k: nat | k + 1 < NSIZES ensures Up(npages, k) % 2 == 0 {
        assert fl[k] == Leftover(base, npages, k);
        if Up(npages, k) % 2 == 1 {
          var i := Up(npages, k) / 2;
          assert FreeAt(base, fl, k, 2 * i);
          assert FreeAt(base, fl, k, 2 * i + 1);
          DownInjective(2 * i, 2 * i + 1, k);
        }
      }
      EvenMeansMultiple(npages, NSIZES - 1);
    }
    if npages % LARGEST == 0 {
      forall k: nat, i: nat | k + 1 < NSIZES ensures !FreeAt(base, fl, k, i) {
        assert fl[k] == Leftover(base, npages, k);
        MultipleMeansEven(npages, k, NSIZES - 1);
      }
    }
  }

  lemma {:induction false} EvenMeansMultiple(n: nat, d: nat)
    requires forall k: nat :: k < d ==> Up(n, k) % 2 == 0
    ensures Pow2(d) >= 1 && n % Pow2(d) == 0
  {
    Pow2Positive(d);
    if d > 0 {
      EvenMeansMultiple(n, d - 1);
      UpIs(n, d - 1);
      var p, q := Pow2(d - 1), Up(n, d - 1);
      assert n == p * q;
      assert q == 2 * (q / 2);
      assert p * q == (q / 2) * (2 * p);
      DivModUnique(n, 2 * p, q / 2, 0);
    }
  }

  lemma MultipleMeansEven(n: nat, k: nat, d: nat)
    requires k < d && Pow2(d) >= 1 && n % Pow2(d) == 0
    ensures Up(n, k) % 2 == 0
  {
    Pow2Positive(k);
    Pow2Positive(d - k - 1);
    UpIs(n, k);
    Pow2Add(k + 1, d - k - 1);
    EvenQuotient(n, Pow2(k), Pow2(d - k - 1), Pow2(d));
  }

  lemma EvenQuotient(n: nat, p: int, c: int, b: int)
    requires p >= 1 && b >= 1 && b == (2 * p) * c && n % b == 0
    ensures n / p % 2 == 0
  {
    var q := n / b;
    assert n == b * q;
    assert ((2 * p) * c) * q == (2 * (c * q)) * p;
    DivModUnique(n, p, 2 * (c * q), 0);
  }

  /** A group whose size is a multiple of the largest block starts with exact lists and clear maps. */
  lemma InitialExact(base: nat, m: nat)
    ensures WellFormed(base, m, InitialLists(base, Count(m, 0)))
    ensures Exact(base, m, InitialLists(base, Count(m, 0)), {})
    ensures ClearBitsMatch(base, InitialLists(base, Count(m, 0)))
    ensures Total(InitialLists(base, Count(m, 0)), NSIZES) == Count(m, 0)
  {
    var fl := InitialLists(base, Count(m, 0));
    InitialAre(base, m);
    InitialCorrect(base, m, fl, AllBlocks(base, NSIZES - 1, m));
    assert Count(m, NSIZES - 1) == m;
    AllBlocksHold(base, NSIZES - 1, m);
    EmptyTotal(fl, NSIZES - 1);
    LargestIs();
    CountIs(m);
  }

  lemma InitialAre(base: nat, m: nat)
    ensures forall k :: 0 <= k < NSIZES - 1 ==> InitialLists(base, Count(m, 0))[k] == []
    ensures InitialLists(base, Count(m, 0))[NSIZES - 1] == AllBlocks(base, NSIZES - 1, m)
  {
    var fl := InitialLists(base, Count(m, 0));
    forall k | 0 <= k < NSIZES - 1 ensures fl[k] == [] { UpCount(m, k); }
    UpCount(m, NSIZES - 1);
  }

  lemma InitialCorrect(base: nat, m: nat, fl: FreeList, largest: seq<nat>)
    requires |fl| == NSIZES && (forall k :: 0 <= k < NSIZES - 1 ==> fl[k] == []) && fl[NSIZES - 1] == largest
    requires largest == AllBlocks(base, NSIZES - 1, m)
    ensures WellFormed(base, m, fl) && Exact(base, m, fl, {}) && ClearBitsMatch(base, fl)
  {
    hide Down, AllBlocks;
    AllBlocksHold(base, NSIZES - 1, m);
    forall k, a | 0 <= k < NSIZES && a in fl[k] ensures IsBlock(base, m, k, a) {
      assert InAll(base, NSIZES - 1, m, a);
    }
    forall k: nat, i: nat | k < NSIZES && i < Count(m, k) ensures FreeAt(base, fl, k, i) <==> Maximal(m, {}, k, i) {
      NothingTaken(m, k, i);
      if k == NSIZES - 1 { AllBlocksHas(base, k, m, i); }
    }
  }

  lemma CountIs(m: nat)
    ensures Count(m, 0) == LARGEST * m
  {
    assert Count(m, 4) == 8 * m;
  }

  lemma {:induction false} EmptyTotal(fl: FreeList, n: nat)
    requires n <= |fl| && forall k :: 0 <= k < n ==> fl[k] == []
    ensures Total(fl, n) == 0
  {
    if n > 0 { EmptyTotal(fl, n - 1); }
  }

  lemma {:induction false} UpCount(m: nat, k: nat)
    requires k < NSIZES
    ensures Up(Count(m, 0), k) == Count(m, k)
    ensures k < NSIZES - 1 ==> Up(Count(m, 0), k) % 2 == 0
  {
    hide Count;
    if k < NSIZES - 1 { CountHalves(m, k); }
    if k > 0 {
      UpCount(m, k - 1);
      CountHalves(m, k - 1);
    }
  }

  lemma CountHalves(m: nat, k: nat)
    requires k < NSIZES - 1
    ensures Count(m, k) == 2 * Count(m, k + 1)
  {
  }

  ghost predicate InAll(base: nat, k: nat, n: nat, a: nat)
  {
    exists i: nat :: i < n && a == base + Down(i, k)
  }

  lemma {:induction false} AllBlocksHold(base: nat, k: nat, n: nat)
    ensures |AllBlocks(base, k, n)| == n && NoDup(AllBlocks(base, k, n))
    ensures forall a :: a in AllBlocks(base, k, n) ==> InAll(base, k, n, a)
  {
    if n > 0 {
      AllBlocksHold(base, k, n - 1);
      AllBlocksHas(base, k, n - 1, n - 1);
      forall a | InAll(base, k, n - 1, a) ensures InAll(base, k, n, a) {}
    }
  }

  lemma {:induction false} AllBlocksHas(base: nat, k: nat, n: nat, i: nat)
    ensures base + Down(i, k) in AllBlocks(base, k, n) <==> i < n
  {
    if n > 0 {
      AllBlocksHas(base, k, n - 1, i);
      if Down(i, k) == Down(n - 1, k) { DownInjective(i, n - 1, k); }
    }
  }

  // The end of a range: the group's structure, and its maps before it

  const PAGE_BYTES: nat := 4096
  /** Eight list heads, eight pointers to maps, two addresses and a link. */
  const GROUP_BYTES: nat := 112

  /** A bit for every block of order k that the whole range has room for, in whole bytes. */
  function MapBytes(total: nat, k: nat): nat { (Up(total, k) + 7) / 8 }

  /** The bytes of the maps of orders 1 to n. */
  function AllMapBytes(total: nat, n: nat): nat
  {
    if n == 0 then 0 else AllMapBytes(total, n - 1) + MapBytes(total, n)
  }

  /** The whole pages that are left. */
  function Usable(total: nat): (npages: nat)
    requires total >= 1
    ensures npages < total
  {
    MapsFit(total, NSIZES - 1);
    (total * PAGE_BYTES - GROUP_BYTES - AllMapBytes(total, NSIZES - 1)) / PAGE_BYTES
  }

  lemma {:induction false} MapsFit(total: nat, n: nat)
    requires total >= 1
    ensures AllMapBytes(total, n) <= n * total
  {
    if n > 0 {
      MapsFit(total, n - 1);
      UpAtMost(total, n);
      assert n * total == (n - 1) * total + total;
    }
  }

  lemma {:induction false} UpAtMost(p: nat, k: nat)
    ensures Up(p, k) <= p
  {
    if k > 0 { UpAtMost(p, k - 1); }
  }

  lemma {:induction false} UpMono(p: nat, q: nat, k: nat)
    requires p <= q
    ensures Up(p, k) <= Up(q, k)
  {
    if k > 0 { UpMono(p, q, k - 1); }
  }

  /** A fresh group's maps: every bit clear, and no map for single pages. */
  function ClearMaps(total: nat): (bits: Maps)
    ensures |bits| == NSIZES
  {
    seq(NSIZES, k requires 0 <= k < NSIZES => if k == 0 then [] else seq(8 * MapBytes(total, k), _ => false))
  }

  /** _pagegroup_create, up to the number of usable pages. */
  method Carve(total: nat) returns (npages: nat, bits: Maps)
    requires total >= 1
    ensures npages == Usable(total) && bits == ClearMaps(total)
  {
    MapsFit(total, NSIZES - 1);
    var end := total * PAGE_BYTES - GROUP_BYTES;
    bits := [[]];
    var order := 1;
    while order < NSIZES
      invariant 1 <= order <= NSIZES && |bits| == order
      invariant end == total * PAGE_BYTES - GROUP_BYTES - AllMapBytes(total, order - 1)
      invariant forall k :: 0 <= k < order ==> bits[k] == ClearMaps(total)[k]
    {
      UpIs(total, order);
      var count := (total / Pow2(order) + 7) / 8;
      end := end - count;
      bits := bits + [seq(8 * count, _ => false)];
      order := order + 1;
    }
    npages := end / PAGE_BYTES;
  }

  lemma InitialBits(base: nat, m: nat, fl: FreeList, total: nat)
    requires |fl| == NSIZES && ClearBitsMatch(base, fl) && Count(m, 0) <= total
    ensures BitsMatch(base, m, fl, ClearMaps(total))
  {
    var bits := ClearMaps(total);
    forall k: nat | 0 < k < NSIZES
      ensures |bits[k]| >= Count(m, k) && forall i :: 0 <= i < |bits[k]| ==> !bits[k][i]
    {
      UpCount(m, k);
      UpMono(Count(m, 0), total, k);
    }
    forall k: nat, i: nat | k + 1 < NSIZES && i < Count(m, k + 1) ensures BitMatches(base, fl, bits, k, i) {}
  }

  /** The live pages are the disjoint union of the live blocks. */
  ghost predicate Tile(m: nat, live: set<nat>, blocks: set<(nat, nat)>)
  {
    && (forall b :: b in blocks ==> b.0 < NSIZES && b.1 < Count(m, b.0) && Pages(m, b.0, b.1) <= live)
    && (forall b, c :: b in blocks && c in blocks && b != c ==> Pages(m, b.0, b.1) !! Pages(m, c.0, c.1))
    && (forall p :: p in live ==> exists b :: b in blocks && p in Pages(m, b.0, b.1))
  }

  /** A block of order k has 2^k pages. */
  lemma {:induction false} PagesCount(m: nat, k: nat, i: nat)
    requires k < NSIZES && i < Count(m, k)
    ensures |Pages(m, k, i)| == Pow2(k)
    decreases k
  {
    if k == 0 {
      assert Pages(m, 0, i) == {i};
    } else {
      var l, r := Pages(m, k - 1, 2 * i), Pages(m, k - 1, 2 * i + 1);
      assert Count(m, k - 1) == 2 * Count(m, k);
      PagesCount(m, k - 1, 2 * i);
      PagesCount(m, k - 1, 2 * i + 1);
      assert Pages(m, k, i) == l + r && l !! r;
    }
  }

  lemma AddTile(m: nat, live: set<nat>, blocks: set<(nat, nat)>, k: nat, i: nat)
    requires Tile(m, live, blocks) && k < NSIZES && i < Count(m, k) && Clear(live, k, i)
    ensures (k, i) !in blocks && Tile(m, live + Pages(m, k, i), blocks + {(k, i)})
    ensures |live + Pages(m, k, i)| == |live| + |Pages(m, k, i)|
  {
    hide Pages, Clear, Count;
    NewBlock(m, live, blocks, k, i);
    var blocks' := blocks + {(k, i)};
    forall p | p in live + Pages(m, k, i) ensures exists b :: b in blocks' && p in Pages(m, b.0, b.1) {
      if p in live {
        var b :| b in blocks && p in Pages(m, b.0, b.1);
        assert b in blocks';
      } else {
        assert (k, i) in blocks';
      }
    }
  }

  lemma NewBlock(m: nat, live: set<nat>, blocks: set<(nat, nat)>, k: nat, i: nat)
    requires Tile(m, live, blocks) && k < NSIZES && i < Count(m, k) && Clear(live, k, i)
    ensures live !! Pages(m, k, i) && (k, i) !in blocks
  {
    var p := FirstPage(m, k, i);
    assert live !! Pages(m, k, i);
  }

  lemma RemoveTile(m: nat, live: set<nat>, blocks: set<(nat, nat)>, k: nat, i: nat)
    requires Tile(m, live, blocks) && (k, i) in blocks
    ensures k < NSIZES && i < Count(m, k)
    ensures Clear(live - Pages(m, k, i), k, i) && live - Pages(m, k, i) + Pages(m, k, i) == live
    ensures Tile(m, live - Pages(m, k, i), blocks - {(k, i)})
    ensures |live - Pages(m, k, i)| == |live| - |Pages(m, k, i)|
  {
    hide Pages, Count, Tile, Clear;
    RemovedClear(m, live, blocks, k, i);
    TileAt(m, live, blocks, (k, i));
    RemovedTile(m, live, blocks, (k, i));
    assert live - Pages(m, k, i) + Pages(m, k, i) == live;
  }

  lemma TileAt(m: nat, live: set<nat>, blocks: set<(nat, nat)>, b: (nat, nat))
    requires Tile(m, live, blocks) && b in blocks
    ensures b.0 < NSIZES && b.1 < Count(m, b.0) && Pages(m, b.0, b.1) <= live
  {
  }

  lemma RemovedTile(m: nat, live: set<nat>, blocks: set<(nat, nat)>, c: (nat, nat))
    requires Tile(m, live, blocks) && c in blocks
    ensures Tile(m, live - Pages(m, c.0, c.1), blocks - {c})
  {
    hide Pages, Count;
    var live', blocks' := live - Pages(m, c.0, c.1), blocks - {c};
    forall p | p in live' ensures exists b :: b in blocks' && p in Pages(m, b.0, b.1) {
      var b :| b in blocks && p in Pages(m, b.0, b.1);
      assert b in blocks';
    }
    forall b | b in blocks' ensures Pages(m, b.0, b.1) <= live' {
      assert Pages(m, b.0, b.1) !! Pages(m, c.0, c.1);
    }
  }

  lemma RemovedClear(m: nat, live: set<nat>, blocks: set<(nat, nat)>, k: nat, i: nat)
    requires Tile(m, live, blocks)
    ensures Clear(live - Pages(m, k, i), k, i)
  {
    forall p | p in live - Pages(m, k, i) ensures Up(p, k) != i {
      var b :| b in blocks && p in Pages(m, b.0, b.1);
    }
  }

  lemma NewGroup(base: nat, m: nat, total: nat)
    requires Count(m, 0) <= total
    ensures WellFormed(base, m, InitialLists(base, Count(m, 0))) && Exact(base, m, InitialLists(base, Count(m, 0)), {})
    ensures BitsMatch(base, m, InitialLists(base, Count(m, 0)), ClearMaps(total)) && Tile(m, {}, {})
    ensures Total(InitialLists(base, Count(m, 0)), NSIZES) == Count(m, 0)
  {
    hide WellFormed, BitsMatch, Exact, Total, Count, InitialLists, ClearMaps, ClearBitsMatch;
    InitialExact(base, m);
    InitialBits(base, m, InitialLists(base, Count(m, 0)), total);
  }

  class PageGroup {
    const base: nat
    const end: nat
    ghost const m: nat
    var freelist: FreeList
    var bits: Maps
    /** The pages handed out, as offsets from base. */
    ghost var live: set<nat>

    ghost predicate Shape()
      reads this
    {
      && end == base + Count(m, 0)
      && |freelist| == NSIZES
      && WellFormed(base, m, freelist)
      && BitsMatch(base, m, freelist, bits)
    }

    /** The pages on the free lists. */
    ghost function FreePages(): int
      reads this
      requires |freelist| == NSIZES
    {
      Total(freelist, NSIZES)
    }

    /** The blocks handed out and not yet freed, as (order, index). */
    ghost var blocks: set<(nat, nat)>

    /** Between public calls: the free lists are determined by the blocks handed out. */
    ghost predicate Valid()
      reads this
    {
      Shape() && Exact(base, m, freelist, live) && Tile(m, live, blocks) && FreePages() + |live| == end - base
    }

    /** Block (k, i) heads its list and is the only one that need not be maximal. */
    ghost predicate Selected(k: nat, i: nat)
      reads this
    {
      && Shape() && k < NSIZES && Tile(m, live, blocks) && FreePages() + |live| == end - base
      && ExactPlus(base, m, freelist, live, k, i)
      && freelist[k] != [] && freelist[k][0] == base + Down(i, k)
    }

    /**
     _pagegroup_create, for a range of total pages. Its clear maps match its lists exactly if the usable part is a
     multiple of the largest block, and then, and only then, what follows holds of the group.
     */
    constructor (start: nat, total: nat)
      requires total >= 1
      ensures base == start && end == start + Usable(total) && blocks == {}
      ensures freelist == InitialLists(start, Usable(total)) && bits == ClearMaps(total)
      ensures ClearBitsMatch(start, freelist) <==> Usable(total) % LARGEST == 0
      ensures Valid() <==> ClearBitsMatch(start, freelist)
      ensures Valid() ==> FreePages() == Usable(total)
    {
      hide WellFormed, BitsMatch, Exact, Tile, Total, Count, Usable, InitialLists, ClearMaps, ClearBitsMatch;
      var npages, maps := Carve(total);
      base := start;
      end := start + npages;
      m := npages / LARGEST;
      live, blocks := {}, {};
      var fl := CreateLists(start, npages);
      freelist := fl;
      bits := maps;
      CountIs(npages / LARGEST);
      InitialBitsMatch(start, npages);
      if npages % LARGEST == 0 { NewGroup(start, npages / LARGEST, total); }
    }

    function CalculateIndex(order: nat, addr: nat): int
      requires addr >= base
    {
      Pow2Positive(order);
      (addr - base) / Pow2(order)
    }

    /** __page_split: replaces the selected block by its halves; the right one becomes selected. */
    method Split(order: nat, ghost i: nat)
      requires 0 < order < NSIZES && Selected(order, i)
      modifies this`freelist, this`bits
      ensures Selected(order - 1, 2 * i + 1) && FreePages() == old(FreePages())
    {
      hide WellFormed, BitsMatch, Exact, ExactPlus, Total, Count, Pow2, Down, Pages, Clear, Tile;
      ghost var fl, bs := freelist, bits;
      TakeBlock(base, m, freelist, bits, live, order, i);
      Index(i, order);
      ExtraIsClear(base, m, freelist, live, order, i);
      var target := freelist[order][0];
      freelist := freelist[order := freelist[order][1..]];
      assert freelist == UnlinkBlock(base, fl, order, i);
      if order < NSIZES - 1 {
        var index := CalculateIndex(order + 1, target);
        MapsHave(base, m, fl, bs, order + 1);
        bits := bits[order + 1 := bits[order + 1][index := !bits[order + 1][index]]];
      }
      assert bits == Flip(bs, order, i);
      SplitReady(base, m, freelist, bits, live, order, i);
      SplitBlock(base, m, freelist, bits, live, order, i);
      assert !bits[order][CalculateIndex(order, target)];
      HalfAddress(i, order);
      var buddy := target + Pow2(order - 1);
      freelist := freelist[order - 1 := [target] + freelist[order - 1]];
      freelist := freelist[order - 1 := [buddy] + freelist[order - 1]];
      assert freelist == LinkHalves(base, UnlinkBlock(base, fl, order, i), order, i);
    }

    /** The inner loop of _page_split: splits the first block of order from until one of the wanted order is left. */
    method SplitDown(from: nat, order: nat) returns (ghost i: nat)
      requires Valid() && order <= from < NSIZES && freelist[from] != []
      modifies this`freelist, this`bits
      ensures Selected(order, i) && FreePages() == old(FreePages())
      ensures |old(freelist)| == NSIZES && base + Down(Up(i, from - order), from) == old(freelist)[from][0]
    {
      hide WellFormed, BitsMatch, Exact, ExactPlus, Total, Count, Pow2, Down, Pages, Clear, Tile;
      i := SelectHead(base, m, freelist, live, from);
      var norder := from;
      while norder > order
        invariant order <= norder <= from && Selected(norder, i) && FreePages() == old(FreePages())
        invariant base + Down(Up(i, from - norder), from) == old(freelist)[from][0]
      {
        Split(norder, i);
        UpHalf(i, from - norder);
        i := 2 * i + 1;
        norder := norder - 1;
      }
    }

    /** The end of _page_alloc_order: hands out the block at the head of the list. */
    method Take(order: nat, ghost i: nat) returns (addr: nat)
      requires Selected(order, i)
      modifies this
      ensures Valid() && addr == base + Down(i, order)
      ensures i < Count(m, order) && Clear(old(live), order, i) && live == old(live) + Pages(m, order, i)
      ensures (order, i) !in old(blocks) && blocks == old(blocks) + {(order, i)}
      ensures FreePages() == old(FreePages()) - Pow2(order)
    {
      hide WellFormed, BitsMatch, Exact, ExactPlus, Total, Count, Pow2, Down, Pages, Clear, Tile;
      ghost var fl, bs := freelist, bits;
      TakeBlock(base, m, freelist, bits, live, order, i);
      ExtraIsClear(base, m, freelist, live, order, i);
      Index(i, order);
      addr := freelist[order][0];
      freelist := freelist[order := freelist[order][1..]];
      assert freelist == UnlinkBlock(base, fl, order, i);
      if NSIZES - 1 > order {
        var index := CalculateIndex(order + 1, addr);
        MapsHave(base, m, fl, bs, order + 1);
        bits := bits[order + 1 := bits[order + 1][index := !bits[order + 1][index]]];
      }
      assert bits == Flip(bs, order, i);
      AddTile(m, live, blocks, order, i);
      PagesCount(m, order, i);
      live := live + Pages(m, order, i);
      blocks := blocks + {(order, i)};
    }

    /** Splits the first block of order from down to the wanted order and hands out a block. */
    method AllocFrom(from: nat, order: nat) returns (addr: nat, ghost i: nat)
      requires Valid() && order <= from < NSIZES && freelist[from] != []
      modifies this
      ensures Valid() && |freelist| == NSIZES && i < Count(m, order) && addr == base + Down(i, order)
      ensures Clear(old(live), order, i) && live == old(live) + Pages(m, order, i)
      ensures blocks == old(blocks) + {(order, i)} && FreePages() == old(FreePages()) - Pow2(order)
      ensures |old(freelist)| == NSIZES && base + Down(Up(i, from - order), from) in old(freelist)[from]
    {
      hide WellFormed, BitsMatch, Exact, ExactPlus, Total, Count, Pow2, Down, Pages, Clear, Tile;
      i := SplitDown(from, order);
      addr := Take(order, i);
    }

    /** __page_join: merges the block with its buddy as long as the buddy is free. */
    method Join(order0: nat, addr0: nat, ghost i0: nat)
      requires Selected(order0, i0) && addr0 == base + Down(i0, order0)
      modifies this`freelist, this`bits
      ensures Valid() && FreePages() == old(FreePages())
    {
      hide WellFormed, BitsMatch, Exact, ExactPlus, Total, Count, Pow2, Down, Pages, Clear, Tile;
      var order, addr := order0, addr0;
      ghost var i := i0;
      Index(i, order);
      BitGuard(base, m, freelist, bits, live, order, i);
      while NSIZES - 1 > order && !bits[order + 1][CalculateIndex(order + 1, addr)]
        invariant Selected(order, i) && addr == base + Down(i, order)
        invariant FreePages() == old(FreePages())
        invariant CalculateIndex(order + 1, addr) == i / 2
        invariant order < NSIZES - 1 ==> |bits| == NSIZES && 0 <= i / 2 < |bits[order + 1]|
        decreases NSIZES - order
      {
        addr := JoinOnce(order, addr, i);
        order, i := order + 1, i / 2;
        Index(i, order);
        BitGuard(base, m, freelist, bits, live, order, i);
      }
      if order < NSIZES - 1 { ClearBitMeansBuddy(base, m, freelist, bits, live, order, i); }
      JoinDone(base, m, freelist, live, order, i);
    }

    /** One turn of the loop: the buddy, found by trusting the clear bit alone, is on the list it is unlinked from. */
    method JoinOnce(order: nat, addr: nat, ghost i: nat) returns (joined: nat)
      requires order + 1 < NSIZES && Selected(order, i) && addr == base + Down(i, order)
      requires |bits| == NSIZES && i / 2 < |bits[order + 1]| && !bits[order + 1][i / 2]
      modifies this`freelist, this`bits
      ensures Selected(order + 1, i / 2) && joined == base + Down(i / 2, order + 1)
      ensures FreePages() == old(FreePages())
    {
      hide WellFormed, BitsMatch, Exact, ExactPlus, Total, Count, Pow2, Down, Pages, Clear, Tile;
      ghost var fl, bs := freelist, bits;
      ClearBitMeansBuddy(base, m, freelist, bits, live, order, i);
      var buddy := BuddyOf(order, addr, i);
      assert buddy in freelist[order] && addr in freelist[order] by { ListsHold(base, m, fl, live, order, i); }
      JoinStep(base, m, freelist, bits, live, order, i);
      freelist := freelist[order := Without<nat>(freelist[order], addr)];
      freelist := freelist[order := Without<nat>(freelist[order], buddy)];
      joined := if addr < buddy then addr else buddy;
      freelist := freelist[order + 1 := [joined] + freelist[order + 1]];
      assert freelist == JoinBlocks(base, fl, order, i);
      if NSIZES - 1 > order + 1 {
        Index(i / 2, order + 1);
        MapsHave(base, m, fl, bs, order + 2);
        var index := CalculateIndex(order + 2, joined);
        bits := bits[order + 2 := bits[order + 2][index := !bits[order + 2][index]]];
      }
      assert bits == Flip(bs, order + 1, i / 2);
    }

    /** _page_free_order, for a block of this group that is in use. */
    method Free(order: nat, addr: nat, ghost i: nat)
      requires Valid() && (order, i) in blocks && order < NSIZES && addr == base + Down(i, order)
      modifies this
      ensures Valid() && |freelist| == NSIZES
      ensures live == old(live) - Pages(m, order, i) && blocks == old(blocks) - {(order, i)}
      ensures FreePages() == old(FreePages()) + Pow2(order)
    {
      hide WellFormed, BitsMatch, Exact, ExactPlus, Total, Count, Pow2, Down, Pages, Clear, Tile;
      ghost var fl, bs := freelist, bits;
      RemoveTile(m, live, blocks, order, i);
      PagesCount(m, order, i);
      live := live - Pages(m, order, i);
      blocks := blocks - {(order, i)};
      PutBlock(base, m, freelist, bits, live, order, i);
      freelist := freelist[order := [addr] + freelist[order]];
      assert freelist == LinkBlock(base, fl, order, i);
      if NSIZES - 1 > order {
        MapsHave(base, m, fl, bs, order + 1);
        Index(i, order);
        var index := CalculateIndex(order + 1, addr);
        bits := bits[order + 1 := bits[order + 1][index := !bits[order + 1][index]]];
        assert bits == Flip(bs, order, i);
        Join(order, addr, i);
      } else {
        JoinDone(base, m, freelist, live, order, i);
      }
    }

    /** The address of the buddy, by the arithmetic of __page_join. */
    method BuddyOf(order: nat, addr: nat, ghost i: nat) returns (buddy: nat)
      requires addr == base + Down(i, order)
      ensures buddy == base + Down(Sibling(i), order)
      ensures base + Down(i / 2, order + 1) == if addr < buddy then addr else buddy
    {
      var offset := addr - base;
      Index(i, order);
      BuddyAddress(i, order);
      buddy := addr + Pow2(order) * (if offset / Pow2(order) % 2 == 1 then -1 else 1);
    }
  }

  /** The block at the head of a list. */
  lemma SelectHead(base: nat, m: nat, fl: FreeList, s: set<nat>, k: nat) returns (i: nat)
    requires |fl| == NSIZES && WellFormed(base, m, fl) && Exact(base, m, fl, s) && k < NSIZES && fl[k] != []
    ensures ExactPlus(base, m, fl, s, k, i) && fl[k][0] == base + Down(i, k)
  {
    assert fl[k][0] in fl[k];
    assert IsBlock(base, m, k, fl[k][0]);
    i :| i < Count(m, k) && fl[k][0] == base + Down(i, k);
    SelectBlock(base, m, fl, s, k, i);
  }

  /** With no free block of this order or larger, no aligned run of that many pages is free. */
  lemma NoRoom(base: nat, m: nat, fl: FreeList, s: set<nat>, order: nat, i: nat)
    requires |fl| == NSIZES && Exact(base, m, fl, s) && order < NSIZES && i < Count(m, order)
    requires forall k :: order <= k < NSIZES ==> fl[k] == []
    ensures !Clear(s, order, i)
  {
    if Clear(s, order, i) {
      var j, x := FitsInMaximal(m, s, order, i);
      ExactAt(base, m, fl, s, j, x);
    }
  }

  lemma ExtraIsClear(base: nat, m: nat, fl: FreeList, s: set<nat>, k: nat, i: nat)
    requires |fl| == NSIZES && ExactPlus(base, m, fl, s, k, i)
    ensures k < NSIZES && i < Count(m, k) && Clear(s, k, i)
  {
  }

  lemma BitGuard(base: nat, m: nat, fl: FreeList, bits: Maps, s: set<nat>, k: nat, i: nat)
    requires |fl| == NSIZES && BitsMatch(base, m, fl, bits) && ExactPlus(base, m, fl, s, k, i)
    ensures k + 1 < NSIZES ==> |bits| == NSIZES && i / 2 < Count(m, k + 1) <= |bits[k + 1]|
  {
    if k + 1 < NSIZES { assert Count(m, k) == 2 * Count(m, k + 1); }
  }

  lemma ListsHold(base: nat, m: nat, fl: FreeList, s: set<nat>, k: nat, i: nat)
    requires |fl| == NSIZES && ExactPlus(base, m, fl, s, k, i)
    ensures k < NSIZES && FreeAt(base, fl, k, i)
  {
  }

  lemma MapsHave(base: nat, m: nat, fl: FreeList, bits: Maps, k: nat)
    requires |fl| == NSIZES && BitsMatch(base, m, fl, bits) && 0 < k < NSIZES
    ensures |bits| == NSIZES && |bits[k]| >= Count(m, k)
  {
  }

  lemma HalfAddress(i: nat, k: nat)
    requires k > 0
    ensures Down(2 * i, k - 1) == Down(i, k) && Down(2 * i + 1, k - 1) == Down(i, k) + Pow2(k - 1)
    ensures Pow2(k - 1) >= 1
  {
    BuddyAddress(2 * i, k - 1);
  }

  // The whole system

  function Sum(s: seq<int>): int { if s == [] then 0 else s[0] + Sum(s[1..]) }

  lemma {:induction false} SumUpdate(s: seq<int>, i: nat, x: int)
    requires i < |s|
    ensures Sum(s[i := x]) == Sum(s) + x - s[i]
  {
    if i > 0 {
      assert s[i := x][1..] == s[1..][i - 1 := x];
      SumUpdate(s[1..], i - 1, x);
    } else {
      assert s[i := x][1..] == s[1..];
    }
  }

  lemma {:induction false} SumAppend(s: seq<int>, x: int)
    ensures Sum(s + [x]) == Sum(s) + x
  {
    if s == [] {
      assert [] + [x] == [x];
    } else {
      assert (s + [x])[1..] == s[1..] + [x];
      SumAppend(s[1..], x);
    }
  }

  lemma EmptySum()
    ensures Sum([]) == 0
  {
  }

  class PageSystem {
    var groups: seq<PageGroup>
    var freecount: int

    ghost predicate Separate()
      reads this, groups
    {
      && (forall a, b :: 0 <= a < b < |groups| ==> groups[a] != groups[b])
      && (forall a, b :: 0 <= a < b < |groups| ==> groups[a].end <= groups[b].base || groups[b].end <= groups[a].base)
      && (forall a :: 0 <= a < |groups| ==> |groups[a].freelist| == NSIZES)
    }

    ghost function FreeCounts(): (r: seq<int>)
      reads this, groups
      requires Separate()
      ensures |r| == |groups| && forall a :: 0 <= a < |r| ==> r[a] == groups[a].FreePages()
    {
      seq(|groups|, a requires 0 <= a < |groups| && Separate() reads this, groups => groups[a].FreePages())
    }

    ghost predicate Valid()
      reads this, groups
    {
      && Separate()
      && (forall a :: 0 <= a < |groups| ==> groups[a].Valid())
      && freecount == Sum(FreeCounts())
    }

    /** page_init. */
    constructor ()
      ensures Valid() && groups == [] && freecount == 0
    {
      groups, freecount := [], 0;
    }

    /** page_add_range: the invariant survives exactly if the usable part is a multiple of the largest block. */
    method AddRange(start: nat, total: nat)
      requires Valid() && total >= 1
      requires forall a :: 0 <= a < |groups| ==> groups[a].end <= start || start + total <= groups[a].base
      modifies this
      ensures Valid() <==> Usable(total) % LARGEST == 0
      ensures freecount == old(freecount) + Usable(total)
      ensures Usable(total) == 0 ==> groups == old(groups)
      ensures Usable(total) != 0 ==> |groups| == |old(groups)| + 1 && groups[..|old(groups)|] == old(groups)
      ensures Usable(total) != 0 ==>
                var g := groups[|old(groups)|];
                && fresh(g) && g.base == start && g.end == start + Usable(total) && g.blocks == {}
                && g.freelist == InitialLists(start, Usable(total)) && g.bits == ClearMaps(total)
    {
      hide WellFormed, BitsMatch, Exact, Tile, Total, Count, Sum, Usable, InitialLists, ClearMaps, ClearBitsMatch;
      EmptySum();
      var g := new PageGroup(start, total);
      if g.base < g.end {
        ghost var counts := FreeCounts();
        groups := groups + [g];
        freecount := freecount + (g.end - g.base);
        assert groups[|groups| - 1] == g;
        if g.Valid() {
          assert FreeCounts() == counts + [g.FreePages()];
          SumAppend(counts, g.FreePages());
        }
      }
    }

    /** The first group with a free block of this order, or the number of groups. */
    method FindFree(order: nat) returns (g: nat)
      requires Separate() && order < NSIZES
      ensures g <= |groups| && (g < |groups| ==> groups[g].freelist[order] != [])
      ensures forall a :: 0 <= a < g ==> groups[a].freelist[order] == []
    {
      g := 0;
      while g < |groups| && groups[g].freelist[order] == []
        invariant g <= |groups|
        invariant forall a :: 0 <= a < g ==> groups[a].freelist[order] == []
      {
        g := g + 1;
      }
    }

    twostate predicate AllAsBefore()
      reads this, groups
    {
      && groups == old(groups) && freecount == old(freecount)
      && forall a :: 0 <= a < |groups| ==> unchanged(groups[a])
    }

    /** In no group are 2^order pages free that would make a block. */
    ghost predicate NoRunOf(order: nat)
      requires order < NSIZES
      reads this, groups
    {
      forall a, x: nat :: 0 <= a < |groups| && x < Count(groups[a].m, order) ==> !Clear(groups[a].live, order, x)
    }

    twostate predicate OthersAsBefore(g: nat)
      reads this, groups
    {
      && groups == old(groups) && g < |groups|
      && forall a :: 0 <= a < |groups| && a != g ==> unchanged(groups[a])
    }

    /** Block (order, i) of group g, which was free of live pages, is now live; nothing else has changed. */
    twostate predicate HandedOut(g: nat, addr: nat, order: nat, i: nat)
      reads this, groups
    {
      && OthersAsBefore(g) && order < NSIZES
      && i < Count(groups[g].m, order) && addr == groups[g].base + Down(i, order)
      && Clear(old(groups[g].live), order, i)
      && groups[g].live == old(groups[g].live) + Pages(groups[g].m, order, i)
      && groups[g].blocks == old(groups[g].blocks) + {(order, i)}
      && freecount == old(freecount) - Pow2(order)
    }

    /** The block lies in one that was free, and no smaller free block, in any group, would have done. */
    twostate predicate BestFit(g: nat, order: nat, i: nat, from: nat)
      reads this, groups
    {
      && groups == old(groups) && g < |groups| && order <= from < NSIZES
      && (forall a :: 0 <= a < |groups| ==> |old(groups[a].freelist)| == NSIZES)
      && groups[g].base + Down(Up(i, from - order), from) in old(groups[g].freelist)[from]
      && forall a, k :: 0 <= a < |groups| && order <= k < from ==> old(groups[a].freelist)[k] == []
    }

    /** Block (order, i) of group g is no longer live; nothing else has changed. */
    twostate predicate TakenBack(g: nat, order: nat, i: nat)
      reads this, groups
    {
      && OthersAsBefore(g)
      && groups[g].live == old(groups[g].live) - Pages(groups[g].m, order, i)
      && groups[g].blocks == old(groups[g].blocks) - {(order, i)}
      && freecount == old(freecount) + Pow2(order)
    }

    lemma NothingFits(order: nat)
      requires Valid() && order < NSIZES
      requires forall a, k :: 0 <= a < |groups| && order <= k < NSIZES ==> groups[a].freelist[k] == []
      ensures NoRunOf(order)
    {
      forall a, x: nat | 0 <= a < |groups| && x < Count(groups[a].m, order) ensures !Clear(groups[a].live, order, x) {
        var g := groups[a];
        NoRoom(g.base, g.m, g.freelist, g.live, order, x);
      }
    }

    /** When only group f was touched, the groups still lie apart and the others are as they were. */
    twostate lemma OthersUnchanged(f: nat)
      requires old(Separate()) && groups == old(groups) && f < |groups| && |groups[f].freelist| == NSIZES
      requires forall a :: 0 <= a < |groups| && groups[a] != groups[f] ==> unchanged(groups[a])
      ensures Separate()
      ensures forall a :: 0 <= a < |groups| && a != f ==> groups[a].FreePages() == old(groups[a].FreePages())
      ensures forall a :: 0 <= a < |groups| && a != f ==> groups[a].Valid() == old(groups[a].Valid())
    {
    }

    /** The running count after one group's free pages changed by d. */
    lemma CountsAfter(counts: seq<int>, g: nat, d: int)
      requires Separate() && |counts| == |groups| && g < |groups|
      requires forall a :: 0 <= a < |groups| && a != g ==> groups[a].FreePages() == counts[a]
      requires groups[g].FreePages() == counts[g] + d
      ensures Sum(FreeCounts()) == Sum(counts) + d
    {
      assert FreeCounts() == counts[g := counts[g] + d];
      SumUpdate(counts, g, counts[g] + d);
    }

    /** The smallest order above the wanted one with a free block, and the first group that has one. */
    method FindLarger(order: nat) returns (g: nat, norder: nat)
      requires Separate() && order < NSIZES
      ensures g <= |groups|
      ensures g < |groups| ==> order < norder < NSIZES && groups[g].freelist[norder] != []
      ensures g < |groups| ==> forall a, k :: 0 <= a < |groups| && order < k < norder ==> groups[a].freelist[k] == []
      ensures g < |groups| ==> forall a :: 0 <= a < g ==> groups[a].freelist[norder] == []
      ensures g == |groups| ==> forall a, k :: 0 <= a < |groups| && order < k < NSIZES ==> groups[a].freelist[k] == []
    {
      norder := order + 1;
      while norder < NSIZES
        invariant order < norder <= NSIZES
        invariant forall a, k :: 0 <= a < |groups| && order < k < norder ==> groups[a].freelist[k] == []
      {
        g := FindFree(norder);
        if g < |groups| {
          return;
        }
        norder := norder + 1;
      }
      g := |groups|;
    }

    ghost predicate NoneBelow(order: nat, from: nat)
      requires Separate() && from < NSIZES
      reads this, groups
    {
      forall a, k :: 0 <= a < |groups| && order <= k < from ==> groups[a].freelist[k] == []
    }

    /** The smallest order, from the wanted one up, with a free block, and the first group that has one. */
    method FindFit(order: nat) returns (f: nat, from: nat)
      requires Valid() && order < NSIZES
      ensures f <= |groups|
      ensures f < |groups| ==> order <= from < NSIZES && groups[f].freelist[from] != [] && NoneBelow(order, from)
      ensures f == |groups| ==> NoRunOf(order)
    {
      hide WellFormed, BitsMatch, Exact, ExactPlus, Total, Count, Pow2, Down, Tile, Sum, Pages, Clear, PageGroup.Valid;
      from := order;
      f := FindFree(order);
      if f == |groups| {
        f, from := FindLarger(order);
        if f == |groups| { NothingFits(order); }
      }
    }

    /**
     _page_alloc_order. It fails exactly when no group has an aligned run of that
     many free pages; otherwise one such run becomes live and nothing else changes.
     */
    method AllocOrder(order: nat) returns (r: Option<nat>, ghost g: nat, ghost i: nat, ghost from: nat)
      requires Valid() && order < NSIZES
      modifies this`freecount, groups
      ensures Valid()
      ensures r == None ==> AllAsBefore() && NoRunOf(order)
      ensures r.Some? ==> HandedOut(g, r.value, order, i) && BestFit(g, order, i, from)
    {
      hide WellFormed, BitsMatch, Exact, ExactPlus, Total, Count, Pow2, Down, Tile, Sum, Pages, Clear, PageGroup.Valid,
           NoneBelow, NoRunOf, Up;
      var f, norder := FindFit(order);
      g, i, from := f, 0, norder;
      if f == |groups| {
        return None, g, i, from;
      }
      var addr;
      addr, i := AllocIn(f, norder, order);
      r := Some(addr);
    }

    method AllocIn(f: nat, from: nat, order: nat) returns (addr: nat, ghost i: nat)
      requires Valid() && f < |groups| && order <= from < NSIZES && groups[f].freelist[from] != []
      requires NoneBelow(order, from)
      modifies this`freecount, groups
      ensures Valid() && HandedOut(f, addr, order, i) && BestFit(f, order, i, from)
    {
      hide WellFormed, BitsMatch, Exact, ExactPlus, Total, Count, Pow2, Down, Tile, Sum, Pages, Clear, PageGroup.Valid;
      ghost var counts := FreeCounts();
      addr, i := groups[f].AllocFrom(from, order);
      freecount := freecount - Pow2(order);
      OthersUnchanged(f);
      CountsAfter(counts, f, -Pow2(order));
    }

    method FreeIn(f: nat, addr: nat, order: nat, ghost i: nat)
      requires Valid() && LiveBlock(f, addr, order, i)
      modifies this`freecount, groups
      ensures Valid() && TakenBack(f, order, i)
    {
      hide WellFormed, BitsMatch, Exact, ExactPlus, Total, Count, Pow2, Down, Tile, Sum, Pages, Clear, PageGroup.Valid;
      ghost var counts := FreeCounts();
      groups[f].Free(order, addr, i);
      freecount := freecount + Pow2(order);
      OthersUnchanged(f);
      CountsAfter(counts, f, Pow2(order));
    }

    /** _pagegroup_from_address. */
    method FromAddress(addr: nat) returns (g: nat)
      requires Separate()
      ensures g <= |groups|
      ensures if g < |groups| then groups[g].base <= addr < groups[g].end
              else forall a :: 0 <= a < |groups| ==> !(groups[a].base <= addr < groups[a].end)
    {
      g := 0;
      while g < |groups| && !(groups[g].base <= addr < groups[g].end)
        invariant g <= |groups|
        invariant forall a :: 0 <= a < g ==> !(groups[a].base <= addr < groups[a].end)
      {
        g := g + 1;
      }
    }

    /** The block at addr is a live block of group g. */
    ghost predicate LiveBlock(g: nat, addr: nat, order: nat, i: nat)
      reads this, groups
    {
      && g < |groups| && order < NSIZES && addr == groups[g].base + Down(i, order)
      && (order, i) in groups[g].blocks
    }

    /**
     _page_free_order. The pages of a live block, and no others, become free; an
     address outside every group is ignored.
     */
    method FreeOrder(addr: nat, order: nat, ghost g: nat, ghost i: nat)
      requires Valid() && g <= |groups|
      requires if g < |groups| then LiveBlock(g, addr, order, i)
               else forall a :: 0 <= a < |groups| ==> !(groups[a].base <= addr < groups[a].end)
      modifies this`freecount, groups
      ensures Valid()
      ensures if g < |old(groups)| then TakenBack(g, order, i) else AllAsBefore()
    {
      hide WellFormed, BitsMatch, Exact, ExactPlus, Total, Count, Pow2, Down, Tile, Sum, Pages, Clear, PageGroup.Valid;
      if g < |groups| { AddressInGroup(groups[g], addr, order, i); }
      var f := FromAddress(addr);
      assert f == g;
      if f == |groups| {
        return;
      }
      FreeIn(f, addr, order, i);
    }

    /** page_alloc_n: a request for more pages than the largest block panics. */
    method AllocN(npages: nat)
      returns (r: Allocation, ghost g: nat, ghost order: nat, ghost i: nat, ghost from: nat)
      requires Valid() && npages < 0x1_0000_0000
      modifies this`freecount, groups
      ensures Valid()
      ensures r == Panic <==> AsInt(npages) > LARGEST
      ensures !r.Block? ==> AllAsBefore()
      ensures r != Panic ==> order < NSIZES && AsInt(npages) <= Pow2(order)
      ensures r != Panic ==> order == 0 || Pow2(order - 1) < AsInt(npages)
      ensures r == NoMemory ==> NoRunOf(order)
      ensures r.Block? ==> HandedOut(g, r.addr, order, i) && LiveBlock(g, r.addr, order, i)
      ensures r.Block? ==> BestFit(g, order, i, from)
      ensures r.Block? ==> (Pow2(order) >= npages <==> npages < 0x8000_0000)
    {
      hide WellFormed, BitsMatch, Exact, ExactPlus, Total, Count, Pow2, Down, Tile, Sum, Pages, Clear, PageGroup.Valid;
      g, i, from := 0, 0, 0;
      var o := OrderFor(npages);
      order := o;
      if o == NSIZES {
        return Panic, g, order, i, from;
      }
      PowerFits(o);
      var addr;
      addr, g, i, from := AllocOrder(o);
      r := if addr.None? then NoMemory else Block(addr.value);
    }
  }

  lemma PowerFits(order: nat)
    requires order < NSIZES
    ensures 1 <= Pow2(order) <= LARGEST
  {
    Pow2Positive(order);
    LargestIs();
    SmallerPower(order, NSIZES - 1);
  }

  lemma AddressInGroup(g: PageGroup, addr: nat, order: nat, i: nat)
    requires g.Valid() && order < NSIZES && addr == g.base + Down(i, order) && (order, i) in g.blocks
    ensures g.base <= addr < g.end
  {
    var p := FirstPage(g.m, order, i);
  }

  // page_alloc_n

  datatype Allocation = Panic | NoMemory | Block(addr: nat)

  /** The argument read as a signed 32-bit number, as the comparison in the size loop does. */
  function AsInt(npages: nat): int
    requires npages < 0x1_0000_0000
  {
    if npages < 0x8000_0000 then npages else npages - 0x1_0000_0000
  }

  /** The order that page_alloc_n uses for npages pages. */
  method OrderFor(npages: nat) returns (order: nat)
    requires npages < 0x1_0000_0000
    ensures order <= NSIZES
    ensures order == NSIZES <==> AsInt(npages) > LARGEST
    ensures order < NSIZES ==> AsInt(npages) <= Pow2(order) && (order == 0 || Pow2(order - 1) < AsInt(npages))
  {
    order := 0;
    while order < NSIZES
      invariant 0 <= order <= NSIZES
      invariant order > 0 ==> Pow2(order - 1) < AsInt(npages)
    {
      if Pow2(order) >= AsInt(npages) {
        break;
      }
      order := order + 1;
    }
    LargestIs();
    if order < NSIZES { SmallerPower(order, NSIZES - 1); }
  }

  // What a valid group looks like

  /** The free lists, as sets, depend on the live pages and not on how they came to be live. */
  lemma HistoryIndependent(a: PageGroup, b: PageGroup, k: nat, addr: nat)
    requires a.Valid() && b.Valid() && a.base == b.base && a.m == b.m && a.live == b.live && k < NSIZES
    ensures addr in a.freelist[k] <==> addr in b.freelist[k]
  {
    if addr in a.freelist[k] { SameLists(a.base, a.m, a.freelist, b.freelist, a.live, k, addr); }
    if addr in b.freelist[k] { SameLists(a.base, a.m, b.freelist, a.freelist, a.live, k, addr); }
  }

  lemma SameLists(base: nat, m: nat, fl: FreeList, fl': FreeList, s: set<nat>, k: nat, addr: nat)
    requires |fl| == |fl'| == NSIZES && WellFormed(base, m, fl) && Exact(base, m, fl, s) && Exact(base, m, fl', s)
    requires k < NSIZES && addr in fl[k]
    ensures addr in fl'[k]
  {
    assert IsBlock(base, m, k, addr);
    var i: nat :| i < Count(m, k) && addr == base + Down(i, k);
    ExactAt(base, m, fl, s, k, i);
    ExactAt(base, m, fl', s, k, i);
  }

  /** Freeing everything brings back the lists the group was created with. */
  lemma AllFreed(g: PageGroup, k: nat, addr: nat)
    requires g.Valid() && g.blocks == {} && k < NSIZES
    ensures addr in g.freelist[k] <==> addr in InitialLists(g.base, g.end - g.base)[k]
    ensures g.FreePages() == g.end - g.base
  {
    assert g.live == {};
    InitialExact(g.base, g.m);
    var fl := InitialLists(g.base, Count(g.m, 0));
    if addr in g.freelist[k] { SameLists(g.base, g.m, g.freelist, fl, {}, k, addr); }
    if addr in fl[k] { SameLists(g.base, g.m, fl, g.freelist, {}, k, addr); }
  }

  ghost predicate InFreeBlock(g: PageGroup, p: nat, k: nat)
    reads g
  {
    k < |g.freelist| && k < NSIZES && FreeAt(g.base, g.freelist, k, Up(p, k))
  }

  ghost predicate InLiveBlock(g: PageGroup, p: nat, b: (nat, nat))
    reads g
  {
    b in g.blocks && p in Pages(g.m, b.0, b.1)
  }

  /** Every page of the group lies in exactly one block, free or live. */
  lemma Tiling(g: PageGroup, p: nat)
    requires g.Valid() && p < g.end - g.base
    ensures (exists k: nat :: InFreeBlock(g, p, k)) <==> !(exists b :: InLiveBlock(g, p, b))
    ensures forall j, k :: InFreeBlock(g, p, j) && InFreeBlock(g, p, k) ==> j == k
    ensures forall b, c :: InLiveBlock(g, p, b) && InLiveBlock(g, p, c) ==> b == c
  {
    hide WellFormed, BitsMatch, Total, Count, Down;
    forall k: nat | InFreeBlock(g, p, k)
      ensures Maximal(g.m, g.live, k, Up(p, k)) && p !in g.live
    {
      FreeIsMaximal(g, p, k);
    }
    forall j, k | InFreeBlock(g, p, j) && InFreeBlock(g, p, k) ensures j == k {
      CoveredOnce(g.m, g.live, p, j, k);
    }
    if p in g.live {
      var b :| b in g.blocks && p in Pages(g.m, b.0, b.1);
      assert InLiveBlock(g, p, b);
    } else {
      var k := FreeBlockOf(g, p);
      assert InFreeBlock(g, p, k);
    }
  }

  lemma FreeIsMaximal(g: PageGroup, p: nat, k: nat)
    requires g.Valid() && p < g.end - g.base && InFreeBlock(g, p, k)
    ensures Maximal(g.m, g.live, k, Up(p, k)) && p !in g.live
  {
    InRange(g.m, p, k);
    ExactAt(g.base, g.m, g.freelist, g.live, k, Up(p, k));
  }

  lemma FreeBlockOf(g: PageGroup, p: nat) returns (k: nat)
    requires g.Valid() && p < g.end - g.base && p !in g.live
    ensures InFreeBlock(g, p, k)
  {
    k := Covered(g.m, g.live, p);
    ExactAt(g.base, g.m, g.freelist, g.live, k, Up(p, k));
  }

  /** Two buddies are never both free. */
  lemma BuddiesNotBothFree(g: PageGroup, k: nat, i: nat)
    requires g.Valid() && k + 1 < NSIZES && i < Count(g.m, k) && Sibling(i) < Count(g.m, k)
    ensures !(FreeAt(g.base, g.freelist, k, i) && FreeAt(g.base, g.freelist, k, Sibling(i)))
  {
    ExactAt(g.base, g.m, g.freelist, g.live, k, i);
    ExactAt(g.base, g.m, g.freelist, g.live, k, Sibling(i));
    NoFreeBuddies(g.m, g.live, k, i);
  }

  // Groups of other sizes

  /** Such a group has a leftover block of some order. */
  lemma LeftoverOrder(npages: nat) returns (k: nat)
    requires npages % LARGEST != 0
    ensures k + 1 < NSIZES && Up(npages, k) % 2 == 1
  {
    LargestIs();
    if forall j: nat :: j < NSIZES - 1 ==> Up(npages, j) % 2 == 0 { EvenMeansMultiple(npages, NSIZES - 1); }
    k :| k < NSIZES - 1 && Up(npages, k) % 2 == 1;
  }

  /** Whether the bit over the leftover block of order k is in its map. */
  ghost predicate BitInside(total: nat, k: nat)
    requires total >= 1
  {
    Up(Usable(total), k) / 2 < 8 * MapBytes(total, k + 1)
  }

  /** It is not exactly if the map has no bit to spare for the pages that the structure and the maps take up. */
  lemma BitOutside(total: nat, k: nat)
    requires total >= 1
    ensures BitInside(total, k) <==> !(Up(total, k + 1) == Up(Usable(total), k + 1) && Up(total, k + 1) % 8 == 0)
  {
    UpMono(Usable(total), total, k + 1);
  }

  /** Where the map of order k starts, counted from the group's structure, for which k is 0. */
  function MapStart(total: nat, k: nat): int { 0 - AllMapBytes(total, k) }

  /**
   Then the place that the code takes for the bit is the first bit behind the map: that of the next map, which starts
   clear, or of the group's structure.
   */
  lemma BitBehind(total: nat, k: nat)
    requires total >= 1 && k + 1 < NSIZES && Up(Usable(total), k) % 2 == 1 && !BitInside(total, k)
    ensures var bit := Up(Usable(total), k) / 2;
            bit % 8 == 0 && MapStart(total, k + 1) + bit / 8 == MapStart(total, k)
    ensures k >= 1 ==> |ClearMaps(total)[k]| > 0 && !ClearMaps(total)[k][0]
  {
    BitOutside(total, k);
    UpMono(Usable(total), total, k);
  }

  /**
   A new group with a leftover block of order k, whose bit is in its map: the block is allocated and freed, each time
   flipping the bit. Then the bit is clear as it was, so the join test passes, and the buddy is not on the list that
   joining unlinks it from.
   */
  lemma LeftoverJoinFails(base: nat, total: nat, k: nat)
    requires total >= 1 && k + 1 < NSIZES && Up(Usable(total), k) % 2 == 1 && BitInside(total, k)
    ensures var fl, bits, i := InitialLists(base, Usable(total)), ClearMaps(total), Up(Usable(total), k) - 1;
            i / 2 < |bits[k + 1]| &&
            var taken, takenBits := UnlinkBlock(base, fl, k, i), Flip(bits, k, i);
            var given, givenBits := LinkBlock(base, taken, k, i), Flip(takenBits, k, i);
            && fl[k] == [base + Down(i, k)] && taken[k] == [] && given[k] == [base + Down(i, k)]
            && takenBits[k + 1][i / 2] && !givenBits[k + 1][i / 2]
            && FreeAt(base, given, k, i) && !FreeAt(base, given, k, Sibling(i))
  {
    hide Usable, MapBytes;
    var fl, i := InitialLists(base, Usable(total)), Up(Usable(total), k) - 1;
    assert fl[k] == Leftover(base, Usable(total), k) == [base + Down(i, k)];
    assert UnlinkBlock(base, fl, k, i)[k] == [];
    if Down(Sibling(i), k) == Down(i, k) { DownInjective(Sibling(i), i, k); }
  }
}
