/**
 Reading and writing files and allocating and freeing blocks on an S5 disk, as the
 disk maker does it (tools/fsmaker/api.py) and, for freeing, as the kernel does it
 (kernel/fs/s5fs/s5fs_subr.c). Superblock and inodes are records here, all other
 blocks are bytes.
 */
module S5 {
  import opened Bytes
  import opened Lists
  import opened Options
  import opened S5Blocks
  import opened S5Files
  import opened S5Inodes

  datatype Allocation = Allocated(blockno: nat) | NoSpace | BadCount

  datatype Outcome = Done | BadType | TooLarge | OutOfSpace

  class Disk {
    var blocks: Blocks
    var free: seq<word>
    var nfree: word
    var inodes: Inodes
    var freeInode: word
    ghost var nodes: seq<nat>
    ghost var freeInodes: seq<nat>

    ghost function Here(): Layout
      reads this`blocks, this`free, this`nfree
    {
      Layout(blocks, free, nfree)
    }

    /** The free blocks, the one to be allocated next at the end. */
    ghost function FreeBlocks(): seq<nat>
      requires FreeList(Here(), nodes)
      reads this`blocks, this`free, this`nfree, this`nodes
    {
      Stack(Here(), nodes)
    }

    ghost predicate Valid()
      reads this
    {
      Good(Here(), nodes, inodes)
    }

    /** Simdisk.alloc_block: takes the top of the stack of free blocks. */
    method AllocBlock() returns (r: Allocation)
      requires nfree <= NBLKS_PER_FNODE - 1 ==> FreeList(Here(), nodes)
      modifies this`free, this`nfree, this`nodes
      ensures r.BadCount? <==> old(nfree) > NBLKS_PER_FNODE - 1
      ensures !r.BadCount? ==> FreeList(Here(), nodes)
      ensures r.NoSpace? ==> old(FreeBlocks()) == []
      ensures r.Allocated? ==> old(FreeBlocks()) == FreeBlocks() + [r.blockno]
      ensures !r.Allocated? ==> unchanged(this)
    {
      hide Linked, InNodes, NoDup, WordAt;
      if nfree > NBLKS_PER_FNODE - 1 {
        return BadCount;
      }
      StackEmpty(Here(), nodes);
      if nfree == 0 {
        if free[NBLKS_PER_FNODE - 1] == NO_BLOCK {
          return NoSpace;
        }
        PoppedStack(Here(), nodes);
        var blockno := free[NBLKS_PER_FNODE - 1];
        ghost var popped, rest := Popped(Here()), PoppedNodes(Here(), nodes);
        var i := 0;
        while i < NBLKS_PER_FNODE - 1
          invariant 0 <= i <= NBLKS_PER_FNODE - 1 && |free| == NBLKS_PER_FNODE && nfree == 0 && nodes == old(nodes)
          invariant forall k :: 0 <= k < i ==> free[k] == NodeWords(blocks[blockno])[k]
        {
          free := free[i := WordAt(blocks[blockno], i)];
          i := i + 1;
        }
        free := free[NBLKS_PER_FNODE - 1 := WordAt(blocks[blockno], NBLKS_PER_FNODE - 1)];
        nfree := NBLKS_PER_FNODE - 1;
        nodes := rest;
        NodeLoaded(free, blocks[blockno]);
        assert Here() == popped;
        return Allocated(blockno);
      } else {
        PoppedStack(Here(), nodes);
        nfree := nfree - 1;
        return Allocated(free[nfree]);
      }
    }

    /** Block.free: a push on the stack of free blocks. */
    method FreeBlock(blockno: nat)
      requires FreeList(Here(), nodes) && blockno in blocks && blockno !in FreeBlocks()
      modifies this`blocks, this`free, this`nfree, this`nodes
      ensures FreeList(Here(), nodes) && FreeBlocks() == old(FreeBlocks()) + [blockno]
      ensures Here() == Pushed(old(Here()), blockno)
    {
      hide Linked, InNodes, NoDup, Pack;
      PushedStack(Here(), nodes, blockno);
      nodes := PushedNodes(Here(), nodes, blockno);
      if nfree < NBLKS_PER_FNODE - 1 {
        free := free[nfree := blockno];
        nfree := nfree + 1;
      } else {
        StoreNode(blockno);
        free := free[NBLKS_PER_FNODE - 1 := blockno];
        nfree := 0;
        assert Here() == Pushed(old(Here()), blockno);
      }
    }

    /** The superblock's list is written into a block, word by word. */
    method StoreNode(blockno: nat)
      requires blockno in blocks && |blocks[blockno]| == BLOCK_SIZE && |free| == NBLKS_PER_FNODE
      modifies this`blocks
      ensures blocks == old(blocks)[blockno := PackAll(free) + old(blocks)[blockno][4 * NBLKS_PER_FNODE..]]
    {
      hide Pack;
      ghost var was := blocks[blockno];
      var i := 0;
      while i < NBLKS_PER_FNODE - 1
        invariant 0 <= i <= NBLKS_PER_FNODE - 1 && blockno in blocks
        invariant blocks == old(blocks)[blockno := blocks[blockno]]
        invariant blocks[blockno] == PackAll(free[..i]) + was[4 * i..]
      {
        PackNext(free, was, i);
        blocks := blocks[blockno := Patched(blocks[blockno], i * 4, Pack(free[i]))];
        i := i + 1;
      }
      PackNext(free, was, NBLKS_PER_FNODE - 1);
      blocks := blocks[blockno := Patched(blocks[blockno], (NBLKS_PER_FNODE - 1) * 4, Pack(free[NBLKS_PER_FNODE - 1]))];
      assert free[..NBLKS_PER_FNODE] == free;
    }

    /** s5_free_block: the same push, leaving the same bytes on the disk. */
    method KernelFreeBlock(blockno: nat)
      requires FreeList(Here(), nodes) && blockno in blocks && blockno !in FreeBlocks()
      modifies this`blocks, this`free, this`nfree, this`nodes
      ensures FreeList(Here(), nodes) && FreeBlocks() == old(FreeBlocks()) + [blockno]
      ensures Here() == Pushed(old(Here()), blockno)
    {
      hide Linked, InNodes, NoDup, Pack;
      PushedStack(Here(), nodes, blockno);
      nodes := PushedNodes(Here(), nodes, blockno);
      if nfree == NBLKS_PER_FNODE - 1 {
        blocks := blocks[blockno := PackAll(free) + blocks[blockno][4 * NBLKS_PER_FNODE..]];
        nfree := 0;
        free := free[NBLKS_PER_FNODE - 1 := blockno];
      } else {
        free := free[nfree := blockno];
        nfree := nfree + 1;
      }
    }

    /** Block.zero on a block just allocated. */
    method AllocZeroed() returns (r: Allocation)
      requires Valid()
      modifies this`blocks, this`free, this`nfree, this`nodes
      ensures Valid() && SameFiles(old(blocks), inodes, blocks, inodes)
      ensures r.NoSpace? || (r.Allocated? && r.blockno < NO_BLOCK && Detached(Here(), nodes, inodes, r.blockno))
      ensures r.NoSpace? ==> FreeBlocks() == [] && unchanged(this)
      ensures r.Allocated? ==> blocks == old(blocks)[r.blockno := Zeros()] && |FreeBlocks()| + 1 == |old(FreeBlocks())|
      ensures forall n :: n in inodes && inodes[n].HasData() ==>
                SameHoles(old(blocks), inodes, blocks, inodes, n, MAX_FILE_BLOCKS)
    {
      hide Linked, InNodes, NoDup, WordAt, SameFiles, Owned, Unowned, Stack;
      ghost var l, ns := Here(), nodes;
      r := AllocBlock();
      if r.NoSpace? {
        SameFilesRefl(blocks, inodes);
        return;
      }
      TakeZeroed(l, ns, inodes, Here(), nodes, r.blockno);
      blocks := blocks[r.blockno := Zeros()];
    }

    /** The number of the k-th block of file n, 0 if it is not there; its indirect block is made to exist if need be. */
    method Locate(n: nat, k: nat) returns (r: Option<nat>)
      requires Valid() && n in inodes && inodes[n].HasData() && k < MAX_FILE_BLOCKS
      modifies this
      ensures Valid() && SameFiles(old(blocks), old(inodes), blocks, inodes)
      ensures n in inodes && inodes[n].HasData() && inodes == old(inodes)[n := inodes[n]]
      ensures r.Some? ==> r.value == Number(blocks, inodes, DataSlot(n, k)) && (k < NDIRECT || inodes[n].indirect != 0)
      ensures r.None? ==> FreeBlocks() == []
      ensures SameHoles(old(blocks), old(inodes), blocks, inodes, n, MAX_FILE_BLOCKS)
      ensures k < NDIRECT ==> inodes[n].indirect == old(inodes)[n].indirect
      ensures if r.Some? then |FreeBlocks()| + One(NDIRECT <= k && old(inodes)[n].indirect == 0) == |old(FreeBlocks())|
              else |old(FreeBlocks())| < One(NDIRECT <= k && old(inodes)[n].indirect == 0)
    {
      hide Linked, InNodes, NoDup, WordAt, SameFiles, Owned, Unowned, Stack;
      SameFilesRefl(blocks, inodes);
      if k < NDIRECT {
        return Some(inodes[n].direct[k]);
      } else if inodes[n].indirect == 0 {
        var a := AllocZeroed();
        if a.NoSpace? {
          return None;
        }
        GiveIndirect(Here(), nodes, inodes, n, a.blockno);
        HolesThen(old(blocks), inodes, blocks, inodes, blocks, inodes[n := inodes[n].(indirect := a.blockno)], n,
                  MAX_FILE_BLOCKS, MAX_FILE_BLOCKS);
        SameFilesThen(old(blocks), inodes, blocks, inodes, blocks, inodes[n := inodes[n].(indirect := a.blockno)]);
        inodes := inodes[n := inodes[n].(indirect := a.blockno)];
        ZeroWords(k - NDIRECT);
        return Some(0);
      } else {
        IndirectThere(Here(), nodes, inodes, n);
        return Some(WordAt(blocks[inodes[n].indirect], k - NDIRECT));
      }
    }

    /** Gives file n a k-th block. */
    method Provide(n: nat, k: nat) returns (r: Option<nat>)
      requires Valid() && n in inodes && inodes[n].HasData() && k < MAX_FILE_BLOCKS
      requires Number(blocks, inodes, DataSlot(n, k)) == 0 && (k < NDIRECT || inodes[n].indirect != 0)
      modifies this
      ensures Valid() && SameFiles(old(blocks), old(inodes), blocks, inodes)
      ensures n in inodes && inodes[n].HasData() && inodes == old(inodes)[n := inodes[n]]
      ensures r.Some? ==> r.value != 0 && Number(blocks, inodes, DataSlot(n, k)) == r.value
      ensures r.None? ==> FreeBlocks() == []
      ensures SameHoles(old(blocks), old(inodes), blocks, inodes, n, k)
      ensures inodes[n].indirect == old(inodes)[n].indirect
      ensures if r.Some? then |FreeBlocks()| + 1 == |old(FreeBlocks())| else |old(FreeBlocks())| == 0
    {
      hide Linked, InNodes, NoDup, WordAt, WithWord, SameFiles, Owned, Stack;
      ghost var blocks0 := blocks;
      if k >= NDIRECT { IndirectThere(Here(), nodes, inodes, n); }
      var a := AllocZeroed();
      if a.NoSpace? {
        return None;
      }
      ghost var blocks1, inodes1 := blocks, inodes;
      if k < NDIRECT {
        GiveDirect(Here(), nodes, inodes, n, k, a.blockno);
        inodes := inodes[n := inodes[n].(direct := inodes[n].direct[k := a.blockno])];
      } else {
        var ind := inodes[n].indirect;
        assert IsSlot(inodes, Indirect(n)) && Number(blocks, inodes, Indirect(n)) == ind;
        GiveEntry(Here(), nodes, inodes, n, k - NDIRECT, a.blockno);
        WordWritten(blocks[ind], k - NDIRECT, a.blockno);
        blocks := blocks[ind := WithWord(blocks[ind], k - NDIRECT, a.blockno)];
      }
      SameFilesThen(blocks0, inodes1, blocks1, inodes1, blocks, inodes);
      HolesThen(blocks0, inodes1, blocks1, inodes1, blocks, inodes, n, MAX_FILE_BLOCKS, k);
      return Some(a.blockno);
    }

    /** The block to write to, for the k-th block of file n; it is allocated if there is none. */
    method BlockFor(n: nat, k: nat) returns (r: Option<nat>)
      requires Valid() && n in inodes && inodes[n].HasData() && k < MAX_FILE_BLOCKS
      modifies this
      ensures Valid() && SameFiles(old(blocks), old(inodes), blocks, inodes)
      ensures n in inodes && inodes[n].HasData() && inodes == old(inodes)[n := inodes[n]]
      ensures r.Some? ==> r.value != 0 && Number(blocks, inodes, DataSlot(n, k)) == r.value
      ensures r.None? ==> FreeBlocks() == []
      ensures SameHoles(old(blocks), old(inodes), blocks, inodes, n, k)
      ensures if r.Some? then |FreeBlocks()| + Cost(old(blocks), old(inodes), n, k) == |old(FreeBlocks())|
              else |old(FreeBlocks())| < Cost(old(blocks), old(inodes), n, k)
      ensures r.Some? ==>
                if k < NDIRECT then inodes[n].indirect == old(inodes)[n].indirect else inodes[n].indirect != 0
    {
      hide Linked, InNodes, NoDup, WordAt, SameFiles, Owned, Number, Stack, SameHoles;
      r := Locate(n, k);
      HoleAt(old(blocks), old(inodes), blocks, inodes, n, k);
      if r == Some(0) {
        ghost var blocks1, inodes1 := blocks, inodes;
        r := Provide(n, k);
        SameFilesThen(old(blocks), old(inodes), blocks1, inodes1, blocks, inodes);
        HolesThen(old(blocks), old(inodes), blocks1, inodes1, blocks, inodes, n, MAX_FILE_BLOCKS, k);
      }
    }

    /** One round of the loop in Inode.write: the part of the data that falls into one block. */
    method WriteBlock(n: nat, offset: nat, data: seq<byte>, ghost start: nat, ghost before: seq<byte>,
                      ghost blocks0: Blocks, ghost inodes0: Inodes) returns (ok: bool)
      requires Valid() && n in inodes && inodes[n].HasData() && offset + |data| <= MAX_FILE_SIZE
      requires 0 < |data| && offset % BLOCK_SIZE + |data| <= BLOCK_SIZE && offset == start + |before|
      requires Sized(blocks0) && Shaped(inodes0) && n in inodes0 && inodes0[n].HasData()
      requires OthersSame(blocks0, inodes0, blocks, inodes, n)
      requires Written(blocks0, inodes0, blocks, inodes, n, start, before)
      modifies this
      ensures Valid() && n in inodes && inodes[n].HasData() && inodes == old(inodes)[n := inodes[n]]
      ensures inodes[n].size == old(inodes)[n].size
      ensures OthersSame(blocks0, inodes0, blocks, inodes, n)
      ensures Written(blocks0, inodes0, blocks, inodes, n, start, if ok then before + data else before)
      ensures !ok ==> FreeBlocks() == []
      ensures SameHoles(old(blocks), old(inodes), blocks, inodes, n, offset / BLOCK_SIZE)
      ensures if ok then |FreeBlocks()| + Cost(old(blocks), old(inodes), n, offset / BLOCK_SIZE) == |old(FreeBlocks())|
              else |old(FreeBlocks())| < Cost(old(blocks), old(inodes), n, offset / BLOCK_SIZE)
      ensures ok ==>
                if offset / BLOCK_SIZE < NDIRECT then inodes[n].indirect == old(inodes)[n].indirect
                else inodes[n].indirect != 0
    {
      hide Linked, InNodes, NoDup, WordAt, Owned, Number, Stack, Written, SameFile, ByteAt, SameHoles, Cost;
      var blockloc, blockoff := offset / BLOCK_SIZE, offset % BLOCK_SIZE;
      ghost var blocks1, inodes1 := blocks, inodes;
      var r := BlockFor(n, blockloc);
      OthersThen(blocks0, inodes0, blocks1, inodes1, blocks, inodes, n);
      assert SameFile(blocks1, inodes1, blocks, inodes, n);
      SameSize(blocks1, inodes1, blocks, inodes, n);
      if r.None? {
        WrittenSame(blocks0, inodes0, blocks1, inodes1, blocks, inodes, n, start, before);
        return false;
      }
      ghost var blocks2 := blocks;
      WriteData(Here(), nodes, inodes, n, blockloc, blockoff, data);
      blocks := blocks[r.value := Patched(blocks[r.value], blockoff, data)];
      HolesAfter(blocks1, inodes1, blocks2, inodes, blocks, inodes, n, blockloc);
      WrittenThen(blocks0, inodes0, blocks1, inodes1, blocks2, inodes, blocks, n, start, before, data);
      OthersThen(blocks0, inodes0, blocks2, inodes, blocks, inodes, n);
      return true;
    }

    /**
     Inode.write: the file's bytes become the old ones with data spliced in, and its size grows to the end of data.
     When blocks run out, a first part of data has been written and the size is as it was; they do exactly if more are
     needed than are free. No other file changes.
     */
    method Write(n: nat, offset: nat, data: seq<byte>) returns (r: Outcome, ghost done: nat)
      requires Valid() && n in inodes
      modifies this
      ensures Valid() && n in inodes && inodes == old(inodes)[n := inodes[n]]
      ensures OthersSame(old(blocks), old(inodes), blocks, inodes, n)
      ensures r == BadType <==> !old(inodes)[n].HasData()
      ensures r == TooLarge <==> old(inodes)[n].HasData() && offset + |data| > MAX_FILE_SIZE
      ensures r == BadType || r == TooLarge ==> blocks == old(blocks) && inodes == old(inodes)
      ensures r == OutOfSpace ==> done < |data| && FreeBlocks() == []
      ensures old(inodes)[n].HasData() && offset + |data| <= MAX_FILE_SIZE ==>
                (r == OutOfSpace <==> |old(FreeBlocks())| < WriteNeeds(old(blocks), old(inodes), n, offset, |data|))
      ensures r == Done ==> done == |data|
      ensures r == Done || r == OutOfSpace ==>
        && inodes[n].HasData() && Written(old(blocks), old(inodes), blocks, inodes, n, offset, data[..done])
        && inodes[n].size
           == if r == Done && offset + |data| > old(inodes)[n].size then offset + |data| else old(inodes)[n].size
    {
      hide Linked, InNodes, NoDup, WordAt, Owned, Number, Stack, Written, SameFile, ByteAt, Good, SameHoles, Cost,
           Needed, FreeList;
      SizedHere(Here(), nodes, inodes);
      done := 0;
      OthersRefl(blocks, inodes, n);
      if !inodes[n].HasData() {
        return BadType, 0;
      }
      if offset + |data| > MAX_FILE_SIZE {
        return TooLarge, 0;
      }
      WrittenNothing(blocks, inodes, n, offset);
      var remaining, at := |data|, offset;
      assert data[..0] == [];
      ghost var hi := EndBlock(offset, |data|);
      NothingNeeded(blocks, inodes, n, hi);
      while remaining > 0
        invariant 0 <= remaining <= |data| && done == |data| - remaining && at == offset + done
        invariant Valid() && Sized(blocks) && Shaped(inodes) && n in inodes && inodes[n].HasData()
        invariant inodes == old(inodes)[n := inodes[n]]
        invariant inodes[n].size == old(inodes)[n].size
        invariant OthersSame(old(blocks), old(inodes), blocks, inodes, n)
        invariant Written(old(blocks), old(inodes), blocks, inodes, n, offset, data[..done])
        invariant FreeList(Here(), nodes)
        invariant |FreeBlocks()| - Needed(blocks, inodes, n, if remaining > 0 then at / BLOCK_SIZE else hi, hi)
               == |old(FreeBlocks())| - Needed(old(blocks), old(inodes), n, offset / BLOCK_SIZE, hi)
      {
        var amount := if BLOCK_SIZE - at % BLOCK_SIZE < remaining then BLOCK_SIZE - at % BLOCK_SIZE else remaining;
        var chunk := data[|data| - remaining..|data| - remaining + amount];
        assert data[..done] + chunk == data[..done + amount];
        ghost var blocks1, inodes1 := blocks, inodes;
        Blocked(at, amount, remaining, offset, |data|);
        var ok := WriteBlock(n, at, chunk, offset, data[..done], old(blocks), old(inodes));
        SizedHere(Here(), nodes, inodes);
        CostWithin(blocks1, inodes1, n, at / BLOCK_SIZE, hi);
        if ok { NeededAfter(blocks1, inodes1, blocks, inodes, n, at / BLOCK_SIZE, hi); }
        if !ok {
          return OutOfSpace, done;
        }
        remaining := remaining - amount;
        at := at + amount;
        done := done + amount;
      }
      NothingNeeded(blocks, inodes, n, hi);
      if at > inodes[n].size {
        Resized(Here(), nodes, inodes, n, at);
        OthersThen(old(blocks), old(inodes), blocks, inodes, blocks, inodes[n := inodes[n].(size := at)], n);
        ResizedWritten(old(blocks), old(inodes), blocks, inodes, n, at, offset, data[..done]);
        inodes := inodes[n := inodes[n].(size := at)];
      }
      r := Done;
    }

    /** Inode.read: a slice of the file's bytes, cut at its size. */
    method Read(n: nat, offset: nat, size: Option<int>) returns (r: Option<seq<byte>>)
      requires Valid() && n in inodes
      ensures r.None? <==> !inodes[n].HasData()
      ensures r.Some? ==> |r.value| == ReadSize(inodes[n], offset, size)
      ensures r.Some? ==> forall i :: 0 <= i < |r.value| ==> r.value[i] == ByteAt(blocks, inodes, n, offset + i)
      ensures r.Some? && offset <= inodes[n].size <= MAX_FILE_SIZE ==>
                r.value == Contents(blocks, inodes, n)[offset..offset + |r.value|]
    {
      hide Linked, InNodes, NoDup, WordAt, Stack, ByteAt, Number, Owned, Good;
      SizedHere(Here(), nodes, inodes);
      if !inodes[n].HasData() {
        return None;
      }
      var want := if size.None? then inodes[n].size else size.value;
      var limit := (if MAX_FILE_SIZE < inodes[n].size then MAX_FILE_SIZE else inodes[n].size) - offset;
      var left := if limit < want then limit else want;
      var at, res: seq<byte> := offset, [];
      while left > 0
        invariant at == offset + |res| && at >= 0
        invariant |res| + (if left > 0 then left else 0) == ReadSize(inodes[n], offset, size)
        invariant left > 0 ==> at + left <= MAX_FILE_SIZE
        invariant forall i :: 0 <= i < |res| ==>
                   offset + i < MAX_FILE_SIZE && res[i] == ByteAt(blocks, inodes, n, offset + i)
      {
        var blockno, blockoff := at / BLOCK_SIZE, at % BLOCK_SIZE;
        var amount := if BLOCK_SIZE - blockoff < left then BLOCK_SIZE - blockoff else left;
        var part := ReadPart(n, blockno, blockoff, amount);
        res := res + part;
        at := at + amount;
        left := left - amount;
      }
      r := Some(res);
    }

    /** One round of the loop in Inode.read. */
    method ReadPart(n: nat, k: nat, blockoff: nat, amount: nat) returns (part: seq<byte>)
      requires Valid() && n in inodes && inodes[n].HasData() && k < MAX_FILE_BLOCKS && blockoff + amount <= BLOCK_SIZE
      ensures |part| == amount
      ensures forall i :: 0 <= i < amount ==> part[i] == ByteAt(blocks, inodes, n, k * BLOCK_SIZE + blockoff + i)
    {
      hide Linked, InNodes, NoDup, WordAt, Stack;
      var blockno: nat;
      if k < NDIRECT {
        blockno := inodes[n].direct[k];
      } else {
        if inodes[n].indirect == 0 {
          blockno := 0;
        } else {
          IndirectThere(Here(), nodes, inodes, n);
          blockno := WordAt(blocks[inodes[n].indirect], k - NDIRECT);
        }
      }
      assert IsSlot(inodes, DataSlot(n, k)) && Number(blocks, inodes, DataSlot(n, k)) == blockno;
      if blockno == 0 {
        part := seq(amount, _ => 0);
      } else {
        part := blocks[blockno][blockoff..blockoff + amount];
      }
    }

    /** s5_free_block, one of several. */
    method FreeAnother(blockno: nat, ghost blocks0: Blocks, ghost wrote: seq<nat>)
      requires FreeList(Here(), nodes) && blockno in blocks && blockno !in FreeBlocks()
      requires OnlyWrote(blocks0, blocks, wrote)
      modifies this`blocks, this`free, this`nfree, this`nodes
      ensures FreeList(Here(), nodes) && FreeBlocks() == old(FreeBlocks()) + [blockno]
      ensures OnlyWrote(blocks0, blocks, wrote + [blockno])
    {
      hide Linked, InNodes, NoDup, WordAt, Stack;
      SizedAt(Here(), nodes, blockno);
      PushedWrote(Here(), blockno, blocks0, wrote);
      KernelFreeBlock(blockno);
    }

    /** The loop of s5_free_inode over the direct blocks. */
    method FreeDirect(n: nat)
      requires Valid() && n in inodes && inodes[n].itype != TYPE_FREE
      modifies this`blocks, this`free, this`nfree, this`nodes, this`inodes
      ensures FreeList(Here(), nodes) && FreeBlocks() == old(FreeBlocks()) + NonZero(old(inodes)[n].direct)
      ensures OnlyWrote(old(blocks), blocks, NonZero(old(inodes)[n].direct))
      ensures inodes == old(inodes)[n := old(inodes)[n].(direct := NoBlocks())]
    {
      hide Linked, InNodes, NoDup, WordAt, Stack, Owned, NonZero, OnlyWrote, FreeList;
      ghost var direct, stack0 := inodes[n].direct, FreeBlocks();
      var i := 0;
      NoneYet(old(blocks), stack0, direct);
      while i < NDIRECT
        invariant 0 <= i <= NDIRECT && FreeList(Here(), nodes) && n in inodes
        invariant FreeBlocks() == stack0 + NonZero(direct[..i]) && OnlyWrote(old(blocks), blocks, NonZero(direct[..i]))
        invariant inodes == old(inodes)[n := old(inodes)[n].(direct := inodes[n].direct)]
        invariant |inodes[n].direct| == NDIRECT && inodes[n].direct[i..] == direct[i..]
        invariant forall k :: 0 <= k < i ==> inodes[n].direct[k] == 0
      {
        NonZeroNext(direct, i);
        assert inodes[n].direct[i] == direct[i..][0];
        if inodes[n].direct[i] != 0 {
          DirectOwned(old(Here()), old(nodes), old(inodes), n, i);
          WroteKeys(old(blocks), blocks, NonZero(direct[..i]));
          FreeAnother(inodes[n].direct[i], old(blocks), NonZero(direct[..i]));
          inodes := inodes[n := inodes[n].(direct := inodes[n].direct[i := 0])];
        }
        i := i + 1;
      }
      assert direct[..NDIRECT] == direct;
      assert inodes[n].direct == NoBlocks();
    }

    /** The loop of s5_free_inode over the numbers in the indirect block. */
    method FreeEntries(ind: nat, ghost l0: Layout, ghost nodes0: seq<nat>, ghost inodes0: Inodes, ghost n: nat)
      requires Good(l0, nodes0, inodes0) && n in inodes0 && inodes0[n].HasData() && inodes0[n].indirect == ind
      requires ind in l0.blocks
      requires FreeList(Here(), nodes) && FreeBlocks() == Stack(l0, nodes0) + NonZero(inodes0[n].direct)
      requires OnlyWrote(l0.blocks, blocks, NonZero(inodes0[n].direct))
      modifies this`blocks, this`free, this`nfree, this`nodes
      ensures FreeList(Here(), nodes)
      ensures FreeBlocks() == old(FreeBlocks()) + NonZero(Entries(l0.blocks[ind]))
      ensures OnlyWrote(l0.blocks, blocks, NonZero(inodes0[n].direct) + NonZero(Entries(l0.blocks[ind])))
    {
      hide Linked, InNodes, NoDup, WordAt, Stack, Owned, NonZero, OnlyWrote, FreeList;
      SizedAt(l0, nodes0, ind);
      ghost var es, stack0, first := Entries(l0.blocks[ind]), FreeBlocks(), NonZero(inodes0[n].direct);
      NoneYetHere(l0.blocks, blocks, first, stack0, es);
      IndirectOwned(l0, nodes0, inodes0, n);
      var i := 0;
      while i < NINDIRECT
        invariant 0 <= i <= NINDIRECT && FreeList(Here(), nodes)
        invariant FreeBlocks() == stack0 + NonZero(es[..i]) && OnlyWrote(l0.blocks, blocks, first + NonZero(es[..i]))
      {
        NonZeroNext(es, i);
        Untouched(l0.blocks, blocks, first, es, i, ind);
        SizedAt(Here(), nodes, ind);
        var b := WordAt(blocks[ind], i);
        if b != 0 {
          EntryOwned(l0, nodes0, inodes0, n, i);
          assert b != ind;
          WroteKeys(l0.blocks, blocks, first + NonZero(es[..i]));
          FreeAnother(b, l0.blocks, first + NonZero(es[..i]));
          assert first + NonZero(es[..i]) + [b] == first + NonZero(es[..i + 1]);
        }
        i := i + 1;
      }
      assert es[..NINDIRECT] == es;
    }

    /**
     s5_free_inode: the inode's direct blocks, the blocks named in its indirect block and that block are pushed on
     the stack of free blocks, each once; the inode becomes the first free one. No other file changes.
     */
    method FreeInode(n: nat)
      requires Valid() && FreeInodes(inodes, freeInode, freeInodes) && n in inodes && n < NO_BLOCK
      requires inodes[n].HasData() || inodes[n].itype == TYPE_CHR || inodes[n].itype == TYPE_BLK
      modifies this
      ensures Valid() && FreeInodes(inodes, freeInode, freeInodes) && freeInodes == [n] + old(freeInodes)
      ensures FreeBlocks() == old(FreeBlocks()) + BlocksOf(old(blocks), old(inodes)[n])
      ensures OthersSame(old(blocks), old(inodes), blocks, inodes, n) && n in inodes
      ensures inodes == old(inodes)[n := inodes[n]]
      ensures inodes[n].itype == TYPE_FREE
    {
      hide Linked, InNodes, NoDup, WordAt, Stack, Owned, NonZero, OnlyWrote, FreeList, BlocksOf, OthersSame, FreeInodes;
      SizedHere(Here(), nodes, inodes);
      FreeInodesAreFree(inodes, freeInode, freeInodes);
      FreeAllBlocks(n);
      inodes := inodes[n := inodes[n].(indirect := 0)];
      inodes := inodes[n := inodes[n].(itype := TYPE_FREE)];
      inodes := inodes[n := inodes[n].(size := freeInode)];
      assert inodes == old(inodes)[n := inodes[n]];
      Released(old(Here()), old(nodes), old(inodes), Here(), nodes, n, inodes[n]);
      FreeInodesKept(old(inodes), inodes, freeInode, freeInodes);
      OneMoreFree(inodes, n, freeInodes);
      freeInode := n;
      freeInodes := [n] + freeInodes;
    }

    /** The blocks of inode n are freed. */
    method FreeAllBlocks(n: nat)
      requires Valid() && n in inodes && inodes[n].itype != TYPE_FREE
      modifies this`blocks, this`free, this`nfree, this`nodes, this`inodes
      ensures FreeList(Here(), nodes) && FreeBlocks() == old(FreeBlocks()) + BlocksOf(old(blocks), old(inodes)[n])
      ensures OnlyWrote(old(blocks), blocks, BlocksOf(old(blocks), old(inodes)[n]))
      ensures inodes == old(inodes)[n := old(inodes)[n].(direct := NoBlocks())]
    {
      hide Linked, InNodes, NoDup, WordAt, Stack, Owned, NonZero, OnlyWrote, FreeList, BlocksOf, Good;
      SizedHere(Here(), nodes, inodes);
      ghost var direct := inodes[n].direct;
      FreeDirect(n);
      if (inodes[n].itype == TYPE_DATA || inodes[n].itype == TYPE_DIR) && inodes[n].indirect != 0 {
        var ind := inodes[n].indirect;
        IndirectOwned(old(Here()), old(nodes), old(inodes), n);
        FreeEntries(ind, old(Here()), old(nodes), old(inodes), n);
        ghost var es := NonZero(Entries(old(blocks)[ind]));
        WroteKeys(old(blocks), blocks, NonZero(direct) + es);
        FreeAnother(ind, old(blocks), NonZero(direct) + es);
        WithIndirect(old(blocks), old(inodes)[n]);
      } else {
        NoIndirect(old(Here()), old(nodes), old(inodes), n);
      }
    }

    /**
     s5_alloc_inode: the first free inode becomes an empty file, all of whose bytes are zero; none if there is no free
     one.
     */
    method AllocInode(itype: nat, devid: word) returns (r: Option<nat>)
      requires Valid() && FreeInodes(inodes, freeInode, freeInodes)
      requires itype == TYPE_DATA || itype == TYPE_DIR || itype == TYPE_CHR || itype == TYPE_BLK
      modifies this`inodes, this`freeInode, this`freeInodes
      ensures Valid() && FreeInodes(inodes, freeInode, freeInodes)
      ensures r.None? <==> old(freeInodes) == []
      ensures r.None? ==> inodes == old(inodes)
      ensures r.Some? ==>
               && old(freeInodes) == [r.value] + freeInodes
               && r.value in inodes && inodes == old(inodes)[r.value := inodes[r.value]]
      ensures r.Some? ==> OthersSame(blocks, old(inodes), blocks, inodes, r.value)
      ensures r.Some? ==> inodes[r.value].itype == itype && inodes[r.value].size == 0 && inodes[r.value].links == 0
      ensures r.Some? ==> inodes[r.value].indirect == if itype == TYPE_CHR || itype == TYPE_BLK then devid else 0
      ensures r.Some? && inodes[r.value].HasData() ==> AllZero(blocks, inodes, r.value)
    {
      hide Linked, InNodes, NoDup, WordAt, Stack, Owned, FreeList, AllZero, OthersSame;
      if freeInode == NO_BLOCK {
        return None;
      }
      var n := freeInode;
      freeInode := inodes[n].size;
      ghost var was := inodes[n];
      var inode := Inode(0, itype, 0, NoBlocks(), if itype == TYPE_CHR || itype == TYPE_BLK then devid else 0);
      FreshInode(Here(), nodes, inodes, n, inode);
      FreeInodesKept(inodes, inodes[n := inode], freeInode, freeInodes[1..]);
      inodes := inodes[n := inode];
      freeInodes := freeInodes[1..];
      r := Some(n);
    }
  }

  lemma NoneYetHere(blocks: Blocks, blocks': Blocks, first: seq<nat>, stack: seq<nat>, ws: seq<word>)
    requires OnlyWrote(blocks, blocks', first)
    ensures stack + NonZero(ws[..0]) == stack && OnlyWrote(blocks, blocks', first + NonZero(ws[..0]))
  {
    assert first + NonZero(ws[..0]) == first;
  }

  /** The indirect block is not among those freed so far. */
  lemma Untouched(blocks: Blocks, blocks': Blocks, first: seq<nat>, es: seq<word>, i: nat, ind: nat)
    requires i <= |es| && ind in blocks && OnlyWrote(blocks, blocks', first + NonZero(es[..i]))
    requires ind !in first && ind !in NonZero(es) && ind != 0
    ensures ind in blocks' && blocks'[ind] == blocks[ind]
  {
  }

  lemma WithIndirect(blocks: Blocks, inode: Inode)
    requires Sized(blocks) && inode.HasData() && inode.indirect in blocks
    ensures BlocksOf(blocks, inode)
         == NonZero(inode.direct) + NonZero(Entries(blocks[inode.indirect])) + [inode.indirect]
  {
  }

  lemma OneMoreFree(inodes: Inodes, n: nat, list: seq<nat>)
    requires n in inodes && n < NO_BLOCK && inodes[n].itype == TYPE_FREE && n !in list
    requires FreeInodes(inodes, inodes[n].size, list)
    ensures FreeInodes(inodes, n, [n] + list)
  {
    assert ([n] + list)[1..] == list;
  }

  lemma NoIndirect(l: Layout, nodes: seq<nat>, inodes: Inodes, n: nat)
    requires Good(l, nodes, inodes) && n in inodes && (!inodes[n].HasData() || inodes[n].indirect == 0)
    ensures BlocksOf(l.blocks, inodes[n]) == NonZero(inodes[n].direct)
  {
  }

  lemma NodeLoaded(free: seq<word>, node: seq<byte>)
    requires |free| == NBLKS_PER_FNODE && |node| == BLOCK_SIZE && free[NBLKS_PER_FNODE - 1] == Link(node)
    requires forall k :: 0 <= k < NBLKS_PER_FNODE - 1 ==> free[k] == NodeWords(node)[k]
    ensures free == NodeWords(node) + [Link(node)]
  {
  }

  lemma NoneYet(blocks: Blocks, stack: seq<nat>, ws: seq<word>)
    ensures stack + NonZero(ws[..0]) == stack && OnlyWrote(blocks, blocks, NonZero(ws[..0]))
  {
  }

  lemma WroteKeys(blocks: Blocks, blocks': Blocks, wrote: seq<nat>)
    requires OnlyWrote(blocks, blocks', wrote)
    ensures blocks'.Keys == blocks.Keys
  {
  }

  lemma SizedAt(l: Layout, nodes: seq<nat>, b: nat)
    requires FreeList(l, nodes) && b in l.blocks
    ensures 0 < b < NO_BLOCK && |l.blocks[b]| == BLOCK_SIZE
  {
  }

  /**
   As many bytes as asked for, or as there are before the end of the file; all of the file's size if nothing is asked.
   */
  function ReadSize(inode: Inode, offset: nat, size: Option<int>): nat
  {
    var want := if size.None? then inode.size else size.value;
    var end := if MAX_FILE_SIZE < inode.size then MAX_FILE_SIZE else inode.size;
    if want <= 0 || end <= offset then 0 else if end - offset < want then end - offset else want
  }

  lemma SizedHere(l: Layout, nodes: seq<nat>, inodes: Inodes)
    requires Good(l, nodes, inodes)
    ensures Sized(l.blocks) && Shaped(inodes) && FreeList(l, nodes)
  {
  }

  lemma SameSize(blocks: Blocks, inodes: Inodes, blocks': Blocks, inodes': Inodes, n: nat)
    requires Sized(blocks) && Shaped(inodes) && Sized(blocks') && Shaped(inodes')
    requires n in inodes && inodes[n].HasData() && SameFile(blocks, inodes, blocks', inodes', n)
    ensures n in inodes' && inodes'[n].size == inodes[n].size
  {
  }

  lemma OthersRefl(blocks: Blocks, inodes: Inodes, n: nat)
    requires Sized(blocks) && Shaped(inodes)
    ensures OthersSame(blocks, inodes, blocks, inodes, n)
  {
  }

  /** The size does not matter to what is where. */
  lemma Resized(l: Layout, nodes: seq<nat>, inodes: Inodes, n: nat, size: word)
    requires Good(l, nodes, inodes) && n in inodes
    ensures var inodes' := inodes[n := inodes[n].(size := size)];
            && Good(l, nodes, inodes') && OthersSame(l.blocks, inodes, l.blocks, inodes', n)
  {
    hide Linked, InNodes, NoDup, WordAt, Stack;
    var inodes' := inodes[n := inodes[n].(size := size)];
    forall s | IsSlot(inodes, s)
      ensures IsSlot(inodes', s) && Number(l.blocks, inodes', s) == Number(l.blocks, inodes, s)
    {
    }
    assert forall s :: IsSlot(inodes', s) <==> IsSlot(inodes, s);
  }

  lemma ResizedWritten(b1: Blocks, i1: Inodes, blocks: Blocks, inodes: Inodes, n: nat, size: word, start: nat,
                       data: seq<byte>)
    requires Sized(b1) && Shaped(i1) && n in i1 && i1[n].HasData()
    requires Sized(blocks) && Shaped(inodes) && n in inodes && inodes[n].HasData()
    requires Written(b1, i1, blocks, inodes, n, start, data)
    ensures Written(b1, i1, blocks, inodes[n := inodes[n].(size := size)], n, start, data)
  {
    hide WordAt;
    var inodes' := inodes[n := inodes[n].(size := size)];
    forall pos: nat | pos < MAX_FILE_SIZE ensures ByteAt(blocks, inodes', n, pos) == ByteAt(blocks, inodes, n, pos) {
    }
  }

  lemma IndirectThere(l: Layout, nodes: seq<nat>, inodes: Inodes, n: nat)
    requires Good(l, nodes, inodes) && n in inodes && inodes[n].HasData() && inodes[n].indirect != 0
    ensures inodes[n].indirect in l.blocks
  {
    hide Linked, InNodes, NoDup, WordAt;
    assert IsSlot(inodes, Indirect(n)) && Number(l.blocks, inodes, Indirect(n)) != 0;
  }

  lemma SameFilesRefl(blocks: Blocks, inodes: Inodes)
    requires Sized(blocks) && Shaped(inodes)
    ensures SameFiles(blocks, inodes, blocks, inodes)
  {
  }

  lemma SameFilesThen(b1: Blocks, i1: Inodes, b2: Blocks, i2: Inodes, b3: Blocks, i3: Inodes)
    requires Sized(b1) && Shaped(i1) && Sized(b2) && Shaped(i2) && Sized(b3) && Shaped(i3)
    requires SameFiles(b1, i1, b2, i2) && SameFiles(b2, i2, b3, i3)
    ensures SameFiles(b1, i1, b3, i3)
  {
    hide ByteAt;
    forall m | m in i1 && i1[m].HasData() ensures SameFile(b1, i1, b3, i3, m) {
      assert SameFile(b1, i1, b2, i2, m) && SameFile(b2, i2, b3, i3, m);
    }
  }

  lemma PackNext(ws: seq<word>, was: seq<byte>, i: nat)
    requires i < |ws| && 4 * |ws| <= |was|
    ensures Patched(PackAll(ws[..i]) + was[4 * i..], i * 4, Pack(ws[i])) == PackAll(ws[..i + 1]) + was[4 * (i + 1)..]
  {
    assert ws[..i + 1][..i] == ws[..i];
  }

  lemma HoleAt(blocks: Blocks, inodes: Inodes, blocks': Blocks, inodes': Inodes, n: nat, k: nat)
    requires Sized(blocks) && Shaped(inodes) && Sized(blocks') && Shaped(inodes') && k < MAX_FILE_BLOCKS
    requires n in inodes && inodes[n].HasData() && n in inodes' && inodes'[n].HasData()
    requires SameHoles(blocks, inodes, blocks', inodes', n, MAX_FILE_BLOCKS)
    ensures Number(blocks', inodes', DataSlot(n, k)) == 0 <==> Number(blocks, inodes, DataSlot(n, k)) == 0
    ensures SameHoles(blocks, inodes, blocks', inodes', n, k)
  {
    hide Number;
  }

  lemma HolesAfter(b1: Blocks, i1: Inodes, b2: Blocks, i2: Inodes, b3: Blocks, i3: Inodes, n: nat, k: nat)
    requires Sized(b1) && Shaped(i1) && Sized(b2) && Shaped(i2) && Sized(b3) && Shaped(i3)
    requires n in i1 && i1[n].HasData() && n in i2 && i2[n].HasData() && n in i3 && i3[n].HasData()
    requires SameHoles(b1, i1, b2, i2, n, k) && SameHoles(b2, i2, b3, i3, n, MAX_FILE_BLOCKS)
    ensures SameHoles(b1, i1, b3, i3, n, k)
  {
    hide Number;
  }

  /** One past the last block that a write touches. */
  function EndBlock(offset: nat, size: nat): nat
  {
    if size == 0 then offset / BLOCK_SIZE else (offset + size - 1) / BLOCK_SIZE + 1
  }

  /** The free blocks that writing size bytes at offset takes. */
  ghost function WriteNeeds(blocks: Blocks, inodes: Inodes, n: nat, offset: nat, size: nat): nat
    requires Sized(blocks) && Shaped(inodes) && n in inodes && inodes[n].HasData() && offset + size <= MAX_FILE_SIZE
  {
    Needed(blocks, inodes, n, offset / BLOCK_SIZE, EndBlock(offset, size))
  }

  lemma NothingNeeded(blocks: Blocks, inodes: Inodes, n: nat, hi: nat)
    requires Sized(blocks) && Shaped(inodes) && n in inodes && inodes[n].HasData() && hi <= MAX_FILE_BLOCKS
    ensures Needed(blocks, inodes, n, hi, hi) == 0
  {
  }

  /** A round ends at the end of a block or of the data. */
  lemma Blocked(at: nat, amount: nat, remaining: nat, offset: nat, size: nat)
    requires 0 < remaining <= size && at + remaining == offset + size <= MAX_FILE_SIZE
    requires amount == if BLOCK_SIZE - at % BLOCK_SIZE < remaining then BLOCK_SIZE - at % BLOCK_SIZE else remaining
    ensures at / BLOCK_SIZE < EndBlock(offset, size) <= MAX_FILE_BLOCKS
    ensures if amount < remaining then (at + amount) / BLOCK_SIZE == at / BLOCK_SIZE + 1
            else EndBlock(offset, size) == at / BLOCK_SIZE + 1
  {
  }
}
