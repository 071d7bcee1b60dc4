/**
 Files on an S5 disk: an inode names 28 blocks directly and up to 1024 more through
 an indirect block; number 0 stands for a block of zeros that is not on the disk.
 */
module S5Files {
  import opened Bytes
  import opened Lists
  import opened S5Blocks

  const NDIRECT: nat := 28
  const NINDIRECT: nat := 1024
  const MAX_FILE_BLOCKS: nat := 1052
  const MAX_FILE_SIZE: nat := 4308992

  const TYPE_FREE: nat := 0
  const TYPE_DATA: nat := 1
  const TYPE_DIR: nat := 2
  const TYPE_CHR: nat := 4
  const TYPE_BLK: nat := 8

  datatype Inode = Inode(size: word, itype: nat, links: int, direct: seq<word>, indirect: word)
  {
    predicate HasData() { itype == TYPE_DATA || itype == TYPE_DIR }
  }

  type Inodes = map<nat, Inode>

  ghost predicate Shaped(inodes: Inodes)
  {
    forall n :: n in inodes ==> |inodes[n].direct| == NDIRECT
  }

  // Who owns which block

  /** A place that can hold the number of a block. */
  datatype Slot = Direct(n: nat, i: nat) | Indirect(n: nat) | Entry(n: nat, j: nat)

  ghost predicate IsSlot(inodes: Inodes, s: Slot)
  {
    match s
    case Direct(n, i) => n in inodes && inodes[n].itype != TYPE_FREE && i < NDIRECT
    case Indirect(n) => n in inodes && inodes[n].HasData()
    case Entry(n, j) => n in inodes && inodes[n].HasData() && j < NINDIRECT
  }

  /** The number a place holds. */
  ghost function Number(blocks: Blocks, inodes: Inodes, s: Slot): nat
    requires Sized(blocks) && Shaped(inodes) && IsSlot(inodes, s)
  {
    match s
    case Direct(n, i) => inodes[n].direct[i]
    case Indirect(n) => inodes[n].indirect
    case Entry(n, j) =>
      if inodes[n].indirect in blocks then WordAt(blocks[inodes[n].indirect], j) else 0
  }

  /** Each block has one owner at most, and no free block has one. */
  ghost predicate Owned(blocks: Blocks, inodes: Inodes, free: seq<nat>)
    requires Sized(blocks) && Shaped(inodes)
  {
    && (forall s :: IsSlot(inodes, s) && Number(blocks, inodes, s) != 0 ==>
          Number(blocks, inodes, s) in blocks && Number(blocks, inodes, s) !in free)
    && (forall s, t :: IsSlot(inodes, s) && IsSlot(inodes, t) && s != t && Number(blocks, inodes, s) != 0 ==>
          Number(blocks, inodes, s) != Number(blocks, inodes, t))
  }

  ghost predicate Unowned(blocks: Blocks, inodes: Inodes, b: nat)
    requires Sized(blocks) && Shaped(inodes)
  {
    forall s :: IsSlot(inodes, s) ==> Number(blocks, inodes, s) != b
  }

  /** Everything a step can rely on. */
  ghost predicate Good(l: Layout, nodes: seq<nat>, inodes: Inodes)
  {
    FreeList(l, nodes) && Shaped(inodes) && Owned(l.blocks, inodes, Stack(l, nodes))
  }

  // What a file holds

  /** The place for the number of the file's k-th block. */
  function DataSlot(n: nat, k: nat): Slot
  {
    if k < NDIRECT then Direct(n, k) else Entry(n, k - NDIRECT)
  }

  /** The byte of file n at a position. */
  ghost function ByteAt(blocks: Blocks, inodes: Inodes, n: nat, pos: nat): byte
    requires Sized(blocks) && Shaped(inodes) && n in inodes && inodes[n].HasData() && pos < MAX_FILE_SIZE
  {
    InBlock(blocks, Number(blocks, inodes, DataSlot(n, pos / BLOCK_SIZE)), pos % BLOCK_SIZE)
  }

  function InBlock(blocks: Blocks, b: nat, i: nat): byte
    requires Sized(blocks) && i < BLOCK_SIZE
  {
    if b in blocks then blocks[b][i] else 0
  }

  ghost predicate SameFile(blocks: Blocks, inodes: Inodes, blocks': Blocks, inodes': Inodes, n: nat)
    requires Sized(blocks) && Shaped(inodes) && Sized(blocks') && Shaped(inodes')
    requires n in inodes && inodes[n].HasData()
  {
    && n in inodes' && inodes'[n].itype == inodes[n].itype && inodes'[n].size == inodes[n].size
    && forall pos: nat :: pos < MAX_FILE_SIZE ==> ByteAt(blocks', inodes', n, pos) == ByteAt(blocks, inodes, n, pos)
  }

  /** File n holds data from this position on, and elsewhere what it held. */
  ghost predicate Written(blocks: Blocks, inodes: Inodes, blocks': Blocks, inodes': Inodes, n: nat, start: nat,
                          data: seq<byte>)
    requires Sized(blocks) && Shaped(inodes) && Sized(blocks') && Shaped(inodes')
    requires n in inodes && inodes[n].HasData() && n in inodes' && inodes'[n].HasData()
  {
    forall pos: nat :: pos < MAX_FILE_SIZE ==>
      ByteAt(blocks', inodes', n, pos)
      == if start <= pos < start + |data| then data[pos - start] else ByteAt(blocks, inodes, n, pos)
  }

  ghost predicate SameFiles(blocks: Blocks, inodes: Inodes, blocks': Blocks, inodes': Inodes)
    requires Sized(blocks) && Shaped(inodes) && Sized(blocks') && Shaped(inodes')
  {
    forall n :: n in inodes && inodes[n].HasData() ==> SameFile(blocks, inodes, blocks', inodes', n)
  }

  /** The same of file n's blocks are there, apart from the k-th. */
  ghost predicate SameHoles(blocks: Blocks, inodes: Inodes, blocks': Blocks, inodes': Inodes, n: nat, k: nat)
    requires Sized(blocks) && Shaped(inodes) && Sized(blocks') && Shaped(inodes')
    requires n in inodes && inodes[n].HasData() && n in inodes' && inodes'[n].HasData()
  {
    forall j: nat :: j < MAX_FILE_BLOCKS && j != k ==>
      (Number(blocks', inodes', DataSlot(n, j)) == 0 <==> Number(blocks, inodes, DataSlot(n, j)) == 0)
  }

  lemma HolesThen(b1: Blocks, i1: Inodes, b2: Blocks, i2: Inodes, b3: Blocks, i3: Inodes, n: nat, j: nat, k: nat)
    requires Sized(b1) && Shaped(i1) && Sized(b2) && Shaped(i2) && Sized(b3) && Shaped(i3)
    requires n in i1 && i1[n].HasData() && n in i2 && i2[n].HasData() && n in i3 && i3[n].HasData()
    requires SameHoles(b1, i1, b2, i2, n, j) && SameHoles(b2, i2, b3, i3, n, k) && (j == k || j >= MAX_FILE_BLOCKS)
    ensures SameHoles(b1, i1, b3, i3, n, k)
  {
    hide Number;
  }

  /** The same places, all holding what they held but possibly one, and no inode appears or disappears. */
  ghost predicate SameSlots(blocks: Blocks, inodes: Inodes, blocks': Blocks, inodes': Inodes, at: Slot, b: nat)
    requires Sized(blocks) && Shaped(inodes) && Sized(blocks') && Shaped(inodes')
  {
    && inodes'.Keys == inodes.Keys && blocks'.Keys == blocks.Keys
    && (forall n :: n in inodes ==> inodes'[n].itype == inodes[n].itype && inodes'[n].size == inodes[n].size)
    && (forall s :: IsSlot(inodes, s) ==> IsSlot(inodes', s))
    && (forall s :: IsSlot(inodes, s) ==>
          Number(blocks', inodes', s) == if s == at then b else Number(blocks, inodes, s))
  }

  /** A block nobody owns can be given to a place that holds none. */
  lemma GivenOwned(blocks: Blocks, inodes: Inodes, blocks': Blocks, inodes': Inodes, free: seq<nat>, at: Slot, b: nat)
    requires Sized(blocks) && Shaped(inodes) && Sized(blocks') && Shaped(inodes') && Owned(blocks, inodes, free)
    requires SameSlots(blocks, inodes, blocks', inodes', at, b) && IsSlot(inodes, at)
    requires Unowned(blocks, inodes, b) && b in blocks && b !in free
    ensures Owned(blocks', inodes', free)
  {
    assert forall s :: IsSlot(inodes', s) <==> IsSlot(inodes, s);
  }

  lemma SameOwned(blocks: Blocks, inodes: Inodes, blocks': Blocks, inodes': Inodes, free: seq<nat>, at: Slot)
    requires Sized(blocks) && Shaped(inodes) && Sized(blocks') && Shaped(inodes') && Owned(blocks, inodes, free)
    requires IsSlot(inodes, at) && SameSlots(blocks, inodes, blocks', inodes', at, Number(blocks, inodes, at))
    ensures Owned(blocks', inodes', free)
  {
    assert forall s :: IsSlot(inodes', s) <==> IsSlot(inodes, s);
  }

  /** If that block holds zeros, no file changes. */
  lemma GivenSameFiles(blocks: Blocks, inodes: Inodes, blocks': Blocks, inodes': Inodes, at: Slot, b: nat)
    requires Sized(blocks) && Shaped(inodes) && Sized(blocks') && Shaped(inodes')
    requires SameSlots(blocks, inodes, blocks', inodes', at, b) && IsSlot(inodes, at) && Number(blocks, inodes, at) == 0
    requires b in blocks' && forall i :: 0 <= i < BLOCK_SIZE ==> blocks'[b][i] == 0
    requires forall n, k :: IsSlot(inodes, DataSlot(n, k)) && Number(blocks, inodes, DataSlot(n, k)) in blocks ==>
               blocks'[Number(blocks, inodes, DataSlot(n, k))] == blocks[Number(blocks, inodes, DataSlot(n, k))]
    ensures SameFiles(blocks, inodes, blocks', inodes')
  {
    forall n, pos: nat | n in inodes && inodes[n].HasData() && pos < MAX_FILE_SIZE
      ensures ByteAt(blocks', inodes', n, pos) == ByteAt(blocks, inodes, n, pos)
    {
      var k := pos / BLOCK_SIZE;
      assert IsSlot(inodes, DataSlot(n, k));
    }
  }

  // The steps of a write

  function Zeros(): seq<byte> { seq(BLOCK_SIZE, _ => 0) }

  lemma ZeroWords(j: nat)
    requires j < NINDIRECT
    ensures WordAt(Zeros(), j) == 0
  {
    assert Zeros()[4 * j..4 * j + 4] == [0, 0, 0, 0];
  }

  /** A block that nobody owns can be overwritten. */
  lemma OverwriteUnowned(blocks: Blocks, inodes: Inodes, free: seq<nat>, b: nat, x: seq<byte>)
    requires Sized(blocks) && Shaped(inodes) && Owned(blocks, inodes, free) && b in blocks
    requires Unowned(blocks, inodes, b) && |x| == BLOCK_SIZE
    ensures Sized(blocks[b := x]) && Owned(blocks[b := x], inodes, free) && Unowned(blocks[b := x], inodes, b)
    ensures SameFiles(blocks, inodes, blocks[b := x], inodes)
    ensures forall n :: n in inodes && inodes[n].HasData() ==>
              SameHoles(blocks, inodes, blocks[b := x], inodes, n, MAX_FILE_BLOCKS)
  {
    var blocks' := blocks[b := x];
    assert Sized(blocks');
    forall s | IsSlot(inodes, s) ensures Number(blocks', inodes, s) == Number(blocks, inodes, s) {
      if s.Entry? { assert IsSlot(inodes, Indirect(s.n)); }
    }
    forall n, pos: nat | n in inodes && inodes[n].HasData() && pos < MAX_FILE_SIZE
      ensures ByteAt(blocks', inodes, n, pos) == ByteAt(blocks, inodes, n, pos)
    {
      assert IsSlot(inodes, DataSlot(n, pos / BLOCK_SIZE));
    }
  }

  /** Allocating a block and clearing it. */
  lemma TakeZeroed(l: Layout, nodes: seq<nat>, inodes: Inodes, l': Layout, nodes': seq<nat>, b: nat)
    requires Good(l, nodes, inodes) && FreeList(l', nodes') && l'.blocks == l.blocks
    requires Stack(l, nodes) == Stack(l', nodes') + [b]
    ensures b in l.blocks && b !in Stack(l', nodes')
    ensures Good(l'.(blocks := l.blocks[b := Zeros()]), nodes', inodes)
    ensures Stack(l'.(blocks := l.blocks[b := Zeros()]), nodes') == Stack(l', nodes')
    ensures Unowned(l.blocks[b := Zeros()], inodes, b) && SameFiles(l.blocks, inodes, l.blocks[b := Zeros()], inodes)
    ensures forall n :: n in inodes && inodes[n].HasData() ==>
              SameHoles(l.blocks, inodes, l.blocks[b := Zeros()], inodes, n, MAX_FILE_BLOCKS)
  {
    hide Number, WordAt, SameFiles, ByteAt, SameHoles;
    var s, s' := Stack(l, nodes), Stack(l', nodes');
    assert s[|s'|] == b;
    assert b in s && b in l.blocks;
    PrefixNoDup(s, s', b);
    assert forall x :: x in s' ==> x in s;
    assert Unowned(l.blocks, inodes, b);
    OverwriteUnowned(l.blocks, inodes, s', b, Zeros());
    StackKept(l', l.blocks[b := Zeros()], nodes');
  }

  /** What is known of a block that was just allocated. */
  ghost predicate Detached(l: Layout, nodes: seq<nat>, inodes: Inodes, b: nat)
    requires Good(l, nodes, inodes)
  {
    b in l.blocks && b !in Stack(l, nodes) && Unowned(l.blocks, inodes, b) && l.blocks[b] == Zeros()
  }

  lemma GiveIndirect(l: Layout, nodes: seq<nat>, inodes: Inodes, n: nat, b: nat)
    requires Good(l, nodes, inodes) && Detached(l, nodes, inodes, b) && b < NO_BLOCK
    requires n in inodes && inodes[n].HasData() && inodes[n].indirect == 0
    ensures var inodes' := inodes[n := inodes[n].(indirect := b)];
            && Good(l, nodes, inodes') && SameFiles(l.blocks, inodes, l.blocks, inodes')
            && SameHoles(l.blocks, inodes, l.blocks, inodes', n, MAX_FILE_BLOCKS)
  {
    hide WordAt, Linked, InNodes, NoDup, SameFiles;
    var inodes', at := inodes[n := inodes[n].(indirect := b)], Indirect(n);
    forall s | IsSlot(inodes, s)
      ensures Number(l.blocks, inodes', s) == if s == at then b else Number(l.blocks, inodes, s)
    {
      if s.Entry? && s.n == n { ZeroWords(s.j); }
    }
    Given(l, nodes, inodes, l.blocks, inodes', at, b);
  }

  lemma GiveDirect(l: Layout, nodes: seq<nat>, inodes: Inodes, n: nat, k: nat, b: nat)
    requires Good(l, nodes, inodes) && Detached(l, nodes, inodes, b) && b < NO_BLOCK
    requires n in inodes && inodes[n].HasData() && k < NDIRECT && inodes[n].direct[k] == 0
    ensures var inodes' := inodes[n := inodes[n].(direct := inodes[n].direct[k := b])];
            && Good(l, nodes, inodes') && SameFiles(l.blocks, inodes, l.blocks, inodes')
            && SameHoles(l.blocks, inodes, l.blocks, inodes', n, k)
  {
    hide WordAt, Linked, InNodes, NoDup, SameFiles;
    var inodes', at := inodes[n := inodes[n].(direct := inodes[n].direct[k := b])], Direct(n, k);
    forall s | IsSlot(inodes, s)
      ensures Number(l.blocks, inodes', s) == if s == at then b else Number(l.blocks, inodes, s)
    {
    }
    Given(l, nodes, inodes, l.blocks, inodes', at, b);
  }

  lemma Given(l: Layout, nodes: seq<nat>, inodes: Inodes, blocks': Blocks, inodes': Inodes, at: Slot, b: nat)
    requires Good(l, nodes, inodes) && Detached(l, nodes, inodes, b) && Sized(blocks') && Shaped(inodes')
    requires SameSlots(l.blocks, inodes, blocks', inodes', at, b) && IsSlot(inodes, at)
    requires Number(l.blocks, inodes, at) == 0
    requires blocks'[b] == l.blocks[b]
    requires forall x :: x in Stack(l, nodes) ==> blocks'[x] == l.blocks[x]
    requires forall n, k :: IsSlot(inodes, DataSlot(n, k)) && Number(l.blocks, inodes, DataSlot(n, k)) in l.blocks ==>
               blocks'[Number(l.blocks, inodes, DataSlot(n, k))] == l.blocks[Number(l.blocks, inodes, DataSlot(n, k))]
    ensures Good(l.(blocks := blocks'), nodes, inodes') && SameFiles(l.blocks, inodes, blocks', inodes')
    ensures Stack(l.(blocks := blocks'), nodes) == Stack(l, nodes)
  {
    hide Number, WordAt, SameFiles;
    GivenOwned(l.blocks, inodes, blocks', inodes', Stack(l, nodes), at, b);
    GivenSameFiles(l.blocks, inodes, blocks', inodes', at, b);
    StackKept(l, blocks', nodes);
  }

  lemma GiveEntry(l: Layout, nodes: seq<nat>, inodes: Inodes, n: nat, j: nat, b: nat)
    requires Good(l, nodes, inodes) && Detached(l, nodes, inodes, b) && b < NO_BLOCK
    requires n in inodes && inodes[n].HasData() && j < NINDIRECT && inodes[n].indirect != 0
    requires inodes[n].indirect in l.blocks
    requires WordAt(l.blocks[inodes[n].indirect], j) == 0
    ensures var ind := inodes[n].indirect;
            var blocks' := l.blocks[ind := WithWord(l.blocks[ind], j, b)];
            && Good(l.(blocks := blocks'), nodes, inodes) && SameFiles(l.blocks, inodes, blocks', inodes)
            && Stack(l.(blocks := blocks'), nodes) == Stack(l, nodes)
            && SameHoles(l.blocks, inodes, blocks', inodes, n, j + NDIRECT)
  {
    hide Linked, InNodes, NoDup, SameFiles, WordAt, WithWord;
    var ind, at := inodes[n].indirect, Entry(n, j);
    WordWritten(l.blocks[ind], j, b);
    var blocks' := l.blocks[ind := WithWord(l.blocks[ind], j, b)];
    assert IsSlot(inodes, Indirect(n)) && Number(l.blocks, inodes, Indirect(n)) == ind;
    forall s | IsSlot(inodes, s)
      ensures Number(blocks', inodes, s) == if s == at then b else Number(l.blocks, inodes, s)
    {
      if s.Entry? && s.n != n { assert IsSlot(inodes, Indirect(s.n)); }
    }
    Given(l, nodes, inodes, blocks', inodes, at, b);
  }

  /** Writing into a block of file n. */
  lemma WriteData(l: Layout, nodes: seq<nat>, inodes: Inodes, n: nat, k: nat, offset: nat, data: seq<byte>)
    requires Good(l, nodes, inodes) && n in inodes && inodes[n].HasData() && k < MAX_FILE_BLOCKS
    requires offset + |data| <= BLOCK_SIZE
    requires Number(l.blocks, inodes, DataSlot(n, k)) != 0
    ensures Number(l.blocks, inodes, DataSlot(n, k)) in l.blocks
    ensures var b := Number(l.blocks, inodes, DataSlot(n, k));
            var blocks' := l.blocks[b := Patched(l.blocks[b], offset, data)];
            && Good(l.(blocks := blocks'), nodes, inodes) && Stack(l.(blocks := blocks'), nodes) == Stack(l, nodes)
            && SameHoles(l.blocks, inodes, blocks', inodes, n, MAX_FILE_BLOCKS)
            && (forall m :: m in inodes && inodes[m].HasData() && m != n ==>
                  SameFile(l.blocks, inodes, blocks', inodes, m))
            && Written(l.blocks, inodes, blocks', inodes, n, k * BLOCK_SIZE + offset, data)
  {
    hide Linked, InNodes, NoDup, WordAt;
    var at := DataSlot(n, k);
    var b := Number(l.blocks, inodes, at);
    var blocks' := l.blocks[b := Patched(l.blocks[b], offset, data)];
    forall s | IsSlot(inodes, s) ensures Number(blocks', inodes, s) == Number(l.blocks, inodes, s) {
      if s.Entry? { assert IsSlot(inodes, Indirect(s.n)); }
    }
    SameOwned(l.blocks, inodes, blocks', inodes, Stack(l, nodes), at);
    StackKept(l, blocks', nodes);
  }

  // Steps in a row

  /** All files but n hold what they held. */
  ghost predicate OthersSame(blocks: Blocks, inodes: Inodes, blocks': Blocks, inodes': Inodes, n: nat)
    requires Sized(blocks) && Shaped(inodes) && Sized(blocks') && Shaped(inodes')
  {
    forall m :: m in inodes && inodes[m].HasData() && m != n ==> SameFile(blocks, inodes, blocks', inodes', m)
  }

  lemma OthersThen(b1: Blocks, i1: Inodes, b2: Blocks, i2: Inodes, b3: Blocks, i3: Inodes, n: nat)
    requires Sized(b1) && Shaped(i1) && Sized(b2) && Shaped(i2) && Sized(b3) && Shaped(i3)
    requires OthersSame(b1, i1, b2, i2, n) && OthersSame(b2, i2, b3, i3, n)
    ensures OthersSame(b1, i1, b3, i3, n)
  {
    hide ByteAt;
    forall m | m in i1 && i1[m].HasData() && m != n ensures SameFile(b1, i1, b3, i3, m) {
      assert SameFile(b1, i1, b2, i2, m) && SameFile(b2, i2, b3, i3, m);
    }
  }

  lemma WrittenNothing(blocks: Blocks, inodes: Inodes, n: nat, start: nat)
    requires Sized(blocks) && Shaped(inodes) && n in inodes && inodes[n].HasData()
    ensures Written(blocks, inodes, blocks, inodes, n, start, [])
    ensures OthersSame(blocks, inodes, blocks, inodes, n)
  {
  }

  /** Giving the file a block and then writing to it. */
  lemma WrittenThen(b1: Blocks, i1: Inodes, b2: Blocks, i2: Inodes, b3: Blocks, i3: Inodes, b4: Blocks,
                    n: nat, start: nat, data: seq<byte>, more: seq<byte>)
    requires Sized(b1) && Shaped(i1) && Sized(b2) && Shaped(i2) && Sized(b3) && Shaped(i3) && Sized(b4)
    requires n in i1 && i1[n].HasData() && n in i2 && i2[n].HasData() && n in i3 && i3[n].HasData()
    requires Written(b1, i1, b2, i2, n, start, data) && SameFile(b2, i2, b3, i3, n)
    requires Written(b3, i3, b4, i3, n, start + |data|, more)
    ensures Written(b1, i1, b4, i3, n, start, data + more)
  {
    hide ByteAt;
  }

  lemma WrittenSame(b1: Blocks, i1: Inodes, b2: Blocks, i2: Inodes, b3: Blocks, i3: Inodes, n: nat, start: nat,
                    data: seq<byte>)
    requires Sized(b1) && Shaped(i1) && Sized(b2) && Shaped(i2) && Sized(b3) && Shaped(i3)
    requires n in i1 && i1[n].HasData() && n in i2 && i2[n].HasData()
    requires Written(b1, i1, b2, i2, n, start, data) && SameFile(b2, i2, b3, i3, n)
    ensures n in i3 && i3[n].HasData() && Written(b1, i1, b3, i3, n, start, data)
  {
    hide ByteAt;
  }

  // How many blocks a write needs

  function One(b: bool): nat { if b then 1 else 0 }

  /** How many of file n's blocks from the k-th up to hi are not there. */
  ghost function Holes(blocks: Blocks, inodes: Inodes, n: nat, k: nat, hi: nat): nat
    requires Sized(blocks) && Shaped(inodes) && n in inodes && inodes[n].HasData() && hi <= MAX_FILE_BLOCKS
    decreases hi - k
  {
    if k >= hi then 0 else One(Number(blocks, inodes, DataSlot(n, k)) == 0) + Holes(blocks, inodes, n, k + 1, hi)
  }

  /** Those, and an indirect block if one of them needs it and there is none. */
  ghost function Needed(blocks: Blocks, inodes: Inodes, n: nat, k: nat, hi: nat): nat
    requires Sized(blocks) && Shaped(inodes) && n in inodes && inodes[n].HasData() && hi <= MAX_FILE_BLOCKS
  {
    Holes(blocks, inodes, n, k, hi) + One(k < hi && NDIRECT < hi && inodes[n].indirect == 0)
  }

  /** What the k-th block alone needs. */
  ghost function Cost(blocks: Blocks, inodes: Inodes, n: nat, k: nat): nat
    requires Sized(blocks) && Shaped(inodes) && n in inodes && inodes[n].HasData() && k < MAX_FILE_BLOCKS
  {
    One(Number(blocks, inodes, DataSlot(n, k)) == 0) + One(NDIRECT <= k && inodes[n].indirect == 0)
  }

  lemma {:induction false} HolesKept(blocks: Blocks, inodes: Inodes, blocks': Blocks, inodes': Inodes, n: nat, k: nat,
                                     j: nat, hi: nat)
    requires Sized(blocks) && Shaped(inodes) && Sized(blocks') && Shaped(inodes') && hi <= MAX_FILE_BLOCKS && k < j
    requires n in inodes && inodes[n].HasData() && n in inodes' && inodes'[n].HasData()
    requires SameHoles(blocks, inodes, blocks', inodes', n, k)
    ensures Holes(blocks', inodes', n, j, hi) == Holes(blocks, inodes, n, j, hi)
    decreases hi - j
  {
    hide Number;
    if j < hi { HolesKept(blocks, inodes, blocks', inodes', n, k, j + 1, hi); }
  }

  /** Once the k-th block is there, the rest needs what is left. */
  lemma NeededAfter(blocks: Blocks, inodes: Inodes, blocks': Blocks, inodes': Inodes, n: nat, k: nat, hi: nat)
    requires Sized(blocks) && Shaped(inodes) && Sized(blocks') && Shaped(inodes') && k < hi <= MAX_FILE_BLOCKS
    requires n in inodes && inodes[n].HasData() && n in inodes' && inodes'[n].HasData()
    requires SameHoles(blocks, inodes, blocks', inodes', n, k)
    requires if k < NDIRECT then inodes'[n].indirect == inodes[n].indirect else inodes'[n].indirect != 0
    ensures Cost(blocks, inodes, n, k) + Needed(blocks', inodes', n, k + 1, hi) == Needed(blocks, inodes, n, k, hi)
  {
    hide Number, SameHoles;
    HolesKept(blocks, inodes, blocks', inodes', n, k, k + 1, hi);
  }

  lemma CostWithin(blocks: Blocks, inodes: Inodes, n: nat, k: nat, hi: nat)
    requires Sized(blocks) && Shaped(inodes) && n in inodes && inodes[n].HasData() && k < hi <= MAX_FILE_BLOCKS
    ensures Cost(blocks, inodes, n, k) <= Needed(blocks, inodes, n, k, hi)
  {
    hide Number;
  }
}
