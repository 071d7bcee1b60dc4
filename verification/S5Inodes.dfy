/**
 What freeing an inode does to the disk: its blocks go to the free list, and the
 inode to the list of free inodes, whose links are kept in the inodes' sizes.
 */
module S5Inodes {
  import opened Bytes
  import opened Lists
  import opened S5Blocks
  import opened S5Files

  // The blocks of one inode

  function NoBlocks(): seq<word> { seq(NDIRECT, _ => 0) }

  /** The numbers in a list that stand for blocks on the disk. */
  function NonZero(ws: seq<word>): (r: seq<nat>)
    ensures forall y :: y in r <==> y in ws && y != 0
  {
    if ws == [] then []
    else
      var n := |ws| - 1;
      assert ws == ws[..n] + [ws[n]];
      NonZero(ws[..n]) + (if ws[n] == 0 then [] else [ws[n]])
  }

  /** The numbers in an indirect block. */
  function Entries(b: seq<byte>): seq<word>
    requires |b| == BLOCK_SIZE
  {
    seq(NINDIRECT, j requires 0 <= j < NINDIRECT => WordAt(b, j))
  }

  /** All blocks of an inode: direct ones, those in the indirect block, and that block. */
  ghost function BlocksOf(blocks: Blocks, inode: Inode): seq<nat>
    requires Sized(blocks)
  {
    NonZero(inode.direct) +
    if inode.HasData() && inode.indirect in blocks then NonZero(Entries(blocks[inode.indirect])) + [inode.indirect]
    else []
  }

  lemma DirectOwned(l: Layout, nodes: seq<nat>, inodes: Inodes, n: nat, i: nat)
    requires Good(l, nodes, inodes) && n in inodes && inodes[n].itype != TYPE_FREE && i < NDIRECT
    requires inodes[n].direct[i] != 0
    ensures var b := inodes[n].direct[i];
            b in l.blocks && b !in Stack(l, nodes) && b !in NonZero(inodes[n].direct[..i])
  {
    hide Linked, InNodes, NoDup, WordAt;
    var s := Direct(n, i);
    assert IsSlot(inodes, s) && Number(l.blocks, inodes, s) == inodes[n].direct[i];
    forall k | 0 <= k < i ensures inodes[n].direct[k] != inodes[n].direct[i] {
      assert IsSlot(inodes, Direct(n, k)) && Number(l.blocks, inodes, Direct(n, k)) == inodes[n].direct[k];
    }
  }

  lemma EntryOwned(l: Layout, nodes: seq<nat>, inodes: Inodes, n: nat, j: nat)
    requires Good(l, nodes, inodes) && n in inodes && inodes[n].HasData() && inodes[n].indirect in l.blocks
    requires j < NINDIRECT
    requires WordAt(l.blocks[inodes[n].indirect], j) != 0
    ensures var es := Entries(l.blocks[inodes[n].indirect]);
            && es[j] in l.blocks && es[j] !in Stack(l, nodes) && es[j] != inodes[n].indirect
            && es[j] !in NonZero(inodes[n].direct) && es[j] !in NonZero(es[..j])
  {
    hide Linked, InNodes, NoDup, WordAt;
    var s, es := Entry(n, j), Entries(l.blocks[inodes[n].indirect]);
    assert IsSlot(inodes, s) && Number(l.blocks, inodes, s) == es[j];
    assert IsSlot(inodes, Indirect(n)) && Number(l.blocks, inodes, Indirect(n)) == inodes[n].indirect;
    forall k | 0 <= k < NDIRECT ensures inodes[n].direct[k] != es[j] {
      assert IsSlot(inodes, Direct(n, k)) && Number(l.blocks, inodes, Direct(n, k)) == inodes[n].direct[k];
    }
    forall k | 0 <= k < j ensures es[k] != es[j] {
      assert IsSlot(inodes, Entry(n, k)) && Number(l.blocks, inodes, Entry(n, k)) == es[k];
    }
  }

  lemma IndirectOwned(l: Layout, nodes: seq<nat>, inodes: Inodes, n: nat)
    requires Good(l, nodes, inodes) && n in inodes && inodes[n].HasData() && inodes[n].indirect != 0
    ensures var ind := inodes[n].indirect;
            && ind in l.blocks && ind !in Stack(l, nodes) && ind !in NonZero(inodes[n].direct)
            && ind !in NonZero(Entries(l.blocks[ind]))
  {
    hide Linked, InNodes, NoDup, WordAt;
    var s, ind := Indirect(n), inodes[n].indirect;
    assert IsSlot(inodes, s) && Number(l.blocks, inodes, s) == ind;
    forall k | 0 <= k < NDIRECT ensures inodes[n].direct[k] != ind {
      assert IsSlot(inodes, Direct(n, k)) && Number(l.blocks, inodes, Direct(n, k)) == inodes[n].direct[k];
    }
    forall k | 0 <= k < NINDIRECT ensures Entries(l.blocks[ind])[k] != ind {
      assert IsSlot(inodes, Entry(n, k)) && Number(l.blocks, inodes, Entry(n, k)) == Entries(l.blocks[ind])[k];
    }
  }

  /** The blocks of one inode are not those of another. */
  lemma BlocksOfOwner(l: Layout, nodes: seq<nat>, inodes: Inodes, n: nat, s: Slot)
    requires Good(l, nodes, inodes) && n in inodes && inodes[n].itype != TYPE_FREE
    requires IsSlot(inodes, s) && s.n != n
    ensures Number(l.blocks, inodes, s) !in BlocksOf(l.blocks, inodes[n])
  {
    hide Linked, InNodes, NoDup, WordAt;
    var b, ind := Number(l.blocks, inodes, s), inodes[n].indirect;
    forall k | 0 <= k < NDIRECT && b != 0 ensures inodes[n].direct[k] != b {
      assert IsSlot(inodes, Direct(n, k)) && Number(l.blocks, inodes, Direct(n, k)) == inodes[n].direct[k];
    }
    if inodes[n].HasData() && ind in l.blocks {
      assert IsSlot(inodes, Indirect(n)) && Number(l.blocks, inodes, Indirect(n)) == ind;
      forall k | 0 <= k < NINDIRECT && b != 0 ensures Entries(l.blocks[ind])[k] != b {
        assert IsSlot(inodes, Entry(n, k)) && Number(l.blocks, inodes, Entry(n, k)) == Entries(l.blocks[ind])[k];
      }
    }
  }

  /** Only these blocks were written. */
  ghost predicate OnlyWrote(blocks: Blocks, blocks': Blocks, wrote: seq<nat>)
  {
    blocks'.Keys == blocks.Keys && forall b :: b in blocks && b !in wrote ==> blocks'[b] == blocks[b]
  }

  /** Once its blocks are on the free list, the inode can be marked free; the other files are as they were. */
  lemma Released(l: Layout, nodes: seq<nat>, inodes: Inodes, l': Layout, nodes': seq<nat>, n: nat, inode: Inode)
    requires Good(l, nodes, inodes) && n in inodes && inodes[n].itype != TYPE_FREE
    requires FreeList(l', nodes') && Stack(l', nodes') == Stack(l, nodes) + BlocksOf(l.blocks, inodes[n])
    requires OnlyWrote(l.blocks, l'.blocks, BlocksOf(l.blocks, inodes[n]))
    requires inode.itype == TYPE_FREE && |inode.direct| == NDIRECT
    ensures Good(l', nodes', inodes[n := inode]) && OthersSame(l.blocks, inodes, l'.blocks, inodes[n := inode], n)
  {
    hide Linked, InNodes, NoDup, WordAt, BlocksOf, Stack;
    var inodes' := inodes[n := inode];
    forall s | IsSlot(inodes', s)
      ensures IsSlot(inodes, s) && s.n != n && Number(l'.blocks, inodes', s) == Number(l.blocks, inodes, s)
      ensures Number(l.blocks, inodes, s) !in BlocksOf(l.blocks, inodes[n])
    {
      BlocksOfOwner(l, nodes, inodes, n, s);
      if s.Entry? {
        BlocksOfOwner(l, nodes, inodes, n, Indirect(s.n));
      }
    }
    forall m | m in inodes && inodes[m].HasData() && m != n ensures SameFile(l.blocks, inodes, l'.blocks, inodes', m) {
      forall pos: nat | pos < MAX_FILE_SIZE
        ensures ByteAt(l'.blocks, inodes', m, pos) == ByteAt(l.blocks, inodes, m, pos)
      {
        assert IsSlot(inodes', DataSlot(m, pos / BLOCK_SIZE));
      }
    }
  }

  lemma PushedWrote(l: Layout, b: nat, blocks: Blocks, wrote: seq<nat>)
    requires |l.free| == NBLKS_PER_FNODE && l.nfree <= NBLKS_PER_FNODE - 1 && b in l.blocks
    requires |l.blocks[b]| == BLOCK_SIZE && b < NO_BLOCK
    requires OnlyWrote(blocks, l.blocks, wrote)
    ensures OnlyWrote(blocks, Pushed(l, b).blocks, wrote + [b])
  {
  }

  lemma NonZeroNext(ws: seq<word>, i: nat)
    requires i < |ws|
    ensures NonZero(ws[..i + 1]) == if ws[i] == 0 then NonZero(ws[..i]) else NonZero(ws[..i]) + [ws[i]]
  {
    assert ws[..i + 1][..i] == ws[..i];
  }

  // The list of free inodes

  ghost predicate FreeInodes(inodes: Inodes, link: nat, list: seq<nat>)
    decreases |list|
  {
    if list == [] then link == NO_BLOCK
    else
      && list[0] == link && link in inodes && link < NO_BLOCK && inodes[link].itype == TYPE_FREE
      && link !in list[1..] && FreeInodes(inodes, inodes[link].size, list[1..])
  }

  lemma {:induction false} FreeInodesKept(inodes: Inodes, inodes': Inodes, link: nat, list: seq<nat>)
    requires FreeInodes(inodes, link, list)
    requires forall n :: n in list && n in inodes ==> n in inodes' && inodes'[n] == inodes[n]
    ensures FreeInodes(inodes', link, list)
    decreases |list|
  {
    if list != [] { FreeInodesKept(inodes, inodes', inodes[link].size, list[1..]); }
  }

  lemma {:induction false} FreeInodesAreFree(inodes: Inodes, link: nat, list: seq<nat>)
    requires FreeInodes(inodes, link, list)
    ensures forall n :: n in list ==> n in inodes && inodes[n].itype == TYPE_FREE
    decreases |list|
  {
    if list != [] { FreeInodesAreFree(inodes, inodes[link].size, list[1..]); }
  }

  ghost predicate AllZero(blocks: Blocks, inodes: Inodes, n: nat)
    requires Sized(blocks) && Shaped(inodes) && n in inodes && inodes[n].HasData()
  {
    forall pos: nat :: pos < MAX_FILE_SIZE ==> ByteAt(blocks, inodes, n, pos) == 0
  }

  /** A file that has just been made, and how it looks. */
  lemma FreshInode(l: Layout, nodes: seq<nat>, inodes: Inodes, n: nat, inode: Inode)
    requires Good(l, nodes, inodes) && n in inodes && inodes[n].itype == TYPE_FREE
    requires inode.direct == NoBlocks() && (inode.HasData() ==> inode.indirect == 0)
    ensures Good(l, nodes, inodes[n := inode]) && OthersSame(l.blocks, inodes, l.blocks, inodes[n := inode], n)
    ensures inode.HasData() ==> AllZero(l.blocks, inodes[n := inode], n)
  {
    hide Linked, InNodes, NoDup, WordAt, Stack;
    var inodes' := inodes[n := inode];
    forall s | IsSlot(inodes', s)
      ensures if s.n == n then Number(l.blocks, inodes', s) == 0
              else IsSlot(inodes, s) && Number(l.blocks, inodes', s) == Number(l.blocks, inodes, s)
    {
    }
    forall m | m in inodes && inodes[m].HasData() && m != n ensures SameFile(l.blocks, inodes, l.blocks, inodes', m) {
      forall pos: nat | pos < MAX_FILE_SIZE
        ensures ByteAt(l.blocks, inodes', m, pos) == ByteAt(l.blocks, inodes, m, pos)
      {
        assert IsSlot(inodes', DataSlot(m, pos / BLOCK_SIZE));
      }
    }
  }

  // Files as sequences of bytes

  /** The file ends within the largest size, and past its end there are only zeros. */
  ghost predicate ZeroPastEnd(blocks: Blocks, inodes: Inodes, n: nat)
    requires Sized(blocks) && Shaped(inodes) && n in inodes && inodes[n].HasData()
  {
    && inodes[n].size <= MAX_FILE_SIZE
    && forall pos: nat :: inodes[n].size <= pos < MAX_FILE_SIZE ==> ByteAt(blocks, inodes, n, pos) == 0
  }

  /** The contents of a file. */
  ghost function Contents(blocks: Blocks, inodes: Inodes, n: nat): seq<byte>
    requires Sized(blocks) && Shaped(inodes) && n in inodes && inodes[n].HasData() && inodes[n].size <= MAX_FILE_SIZE
  {
    seq(inodes[n].size, i requires 0 <= i < inodes[n].size => ByteAt(blocks, inodes, n, i))
  }

  /** The sequence with data put at an offset, filled up with zeros if it was shorter. */
  function Spliced(s: seq<byte>, offset: nat, data: seq<byte>): seq<byte>
  {
    seq(if offset + |data| > |s| then offset + |data| else |s|,
        i requires 0 <= i => if offset <= i < offset + |data| then data[i - offset] else if i < |s| then s[i] else 0)
  }

  /** Writing to a file is splicing into its contents. */
  lemma WriteSplices(blocks: Blocks, inodes: Inodes, blocks': Blocks, inodes': Inodes, n: nat, offset: nat,
                     data: seq<byte>)
    requires Sized(blocks) && Shaped(inodes) && Sized(blocks') && Shaped(inodes')
    requires n in inodes && inodes[n].HasData() && n in inodes' && inodes'[n].HasData()
    requires ZeroPastEnd(blocks, inodes, n) && offset + |data| <= MAX_FILE_SIZE
    requires Written(blocks, inodes, blocks', inodes', n, offset, data)
    requires inodes'[n].size == if offset + |data| > inodes[n].size then offset + |data| else inodes[n].size
    ensures ZeroPastEnd(blocks', inodes', n)
    ensures Contents(blocks', inodes', n) == Spliced(Contents(blocks, inodes, n), offset, data)
  {
    hide ByteAt;
  }

  /**
   When blocks run out, the size stays and the file has what was written of data up to
   that size. Past it there are still only zeros exactly if no other byte was put there.
   */
  lemma PartialWrite(blocks: Blocks, inodes: Inodes, blocks': Blocks, inodes': Inodes, n: nat, offset: nat,
                     data: seq<byte>)
    requires Sized(blocks) && Shaped(inodes) && Sized(blocks') && Shaped(inodes')
    requires n in inodes && inodes[n].HasData() && n in inodes' && inodes'[n].HasData()
    requires ZeroPastEnd(blocks, inodes, n) && offset + |data| <= MAX_FILE_SIZE
    requires Written(blocks, inodes, blocks', inodes', n, offset, data) && inodes'[n].size == inodes[n].size
    ensures Contents(blocks', inodes', n) == Spliced(Contents(blocks, inodes, n), offset, data)[..inodes[n].size]
    ensures ZeroPastEnd(blocks', inodes', n)
       <==> forall i :: 0 <= i < |data| && offset + i >= inodes[n].size ==> data[i] == 0
  {
    hide ByteAt;
    if ZeroPastEnd(blocks', inodes', n) {
      forall i | 0 <= i < |data| && offset + i >= inodes[n].size ensures data[i] == 0 {
        assert ByteAt(blocks', inodes', n, offset + i) == data[i];
      }
    }
  }
}
