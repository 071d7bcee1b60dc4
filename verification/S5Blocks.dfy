/**
 Blocks of an S5 disk and the list of free blocks (tools/fsmaker/api.py,
 kernel/fs/s5fs/s5fs_subr.c). The superblock names up to 29 free blocks; when it is
 full, its 30 numbers move into the next block freed, which becomes a node of the list.
 */
module S5Blocks {
  import opened Bytes
  import opened Lists

  const BLOCK_SIZE: nat := 4096
  const NBLKS_PER_FNODE: nat := 30
  const NO_BLOCK: nat := 0xffff_ffff

  type Blocks = map<nat, seq<byte>>

  // The list of free blocks

  /** The blocks, and the free blocks' part of the superblock: a count, 29 numbers and a link. */
  datatype Layout = Layout(blocks: Blocks, free: seq<word>, nfree: word)

  ghost predicate Sized(blocks: Blocks)
  {
    forall b :: b in blocks ==> 0 < b < NO_BLOCK && |blocks[b]| == BLOCK_SIZE
  }

  function NodeWords(b: seq<byte>): seq<word>
    requires |b| == BLOCK_SIZE
  {
    seq(NBLKS_PER_FNODE - 1, i requires 0 <= i < NBLKS_PER_FNODE - 1 => WordAt(b, i))
  }

  function Link(b: seq<byte>): word
    requires |b| == BLOCK_SIZE
  {
    WordAt(b, NBLKS_PER_FNODE - 1)
  }

  /** Following the links visits exactly these blocks. */
  ghost predicate Linked(blocks: Blocks, link: nat, nodes: seq<nat>)
    requires Sized(blocks)
    decreases |nodes|
  {
    if nodes == [] then link == NO_BLOCK
    else nodes[0] == link && link in blocks && Linked(blocks, Link(blocks[link]), nodes[1..])
  }

  /** The free blocks named in the nodes, and the nodes themselves; the one to be taken first comes last. */
  ghost function InNodes(blocks: Blocks, link: nat, nodes: seq<nat>): seq<nat>
    requires Sized(blocks) && Linked(blocks, link, nodes)
    decreases |nodes|
  {
    if nodes == [] then []
    else InNodes(blocks, Link(blocks[link]), nodes[1..]) + NodeWords(blocks[link]) + [link]
  }

  ghost predicate Chained(l: Layout, nodes: seq<nat>)
  {
    && Sized(l.blocks) && |l.free| == NBLKS_PER_FNODE && l.nfree <= NBLKS_PER_FNODE - 1
    && Linked(l.blocks, l.free[NBLKS_PER_FNODE - 1], nodes)
  }

  /** The free blocks as one stack, its top at the end. */
  ghost function Stack(l: Layout, nodes: seq<nat>): seq<nat>
    requires Chained(l, nodes)
  {
    InNodes(l.blocks, l.free[NBLKS_PER_FNODE - 1], nodes) + l.free[..l.nfree]
  }

  ghost predicate FreeList(l: Layout, nodes: seq<nat>)
  {
    && Chained(l, nodes)
    && NoDup(Stack(l, nodes))
    && forall b :: b in Stack(l, nodes) ==> b in l.blocks
  }

  lemma {:induction false} NodesListed(blocks: Blocks, link: nat, nodes: seq<nat>)
    requires Sized(blocks) && Linked(blocks, link, nodes)
    ensures forall b :: b in nodes ==> b in InNodes(blocks, link, nodes)
    decreases |nodes|
  {
    if nodes != [] { NodesListed(blocks, Link(blocks[link]), nodes[1..]); }
  }

  /** Only the nodes matter. */
  lemma {:induction false} NodesKept(blocks: Blocks, blocks': Blocks, link: nat, nodes: seq<nat>)
    requires Sized(blocks) && Sized(blocks') && Linked(blocks, link, nodes)
    requires forall b :: b in nodes ==> b in blocks && b in blocks' && blocks'[b] == blocks[b]
    ensures Linked(blocks', link, nodes) && InNodes(blocks', link, nodes) == InNodes(blocks, link, nodes)
    decreases |nodes|
  {
    if nodes != [] {
      assert link in nodes;
      NodesKept(blocks, blocks', Link(blocks[link]), nodes[1..]);
    }
  }

  lemma {:induction false} NodesExist(blocks: Blocks, link: nat, nodes: seq<nat>)
    requires Sized(blocks) && Linked(blocks, link, nodes)
    ensures forall b :: b in nodes ==> b in blocks
    decreases |nodes|
  {
    if nodes != [] { NodesExist(blocks, Link(blocks[link]), nodes[1..]); }
  }

  /** Blocks that are not free can be written. */
  lemma StackKept(l: Layout, blocks': Blocks, nodes: seq<nat>)
    requires FreeList(l, nodes) && Sized(blocks') && l.blocks.Keys == blocks'.Keys
    requires forall b :: b in Stack(l, nodes) ==> blocks'[b] == l.blocks[b]
    ensures FreeList(l.(blocks := blocks'), nodes) && Stack(l.(blocks := blocks'), nodes) == Stack(l, nodes)
  {
    var link := l.free[NBLKS_PER_FNODE - 1];
    NodesListed(l.blocks, link, nodes);
    NodesExist(l.blocks, link, nodes);
    assert forall b :: b in InNodes(l.blocks, link, nodes) ==> b in Stack(l, nodes);
    NodesKept(l.blocks, blocks', link, nodes);
  }

  // Pushing and popping

  /** Freeing block b. */
  function Pushed(l: Layout, b: nat): Layout
    requires |l.free| == NBLKS_PER_FNODE && l.nfree <= NBLKS_PER_FNODE - 1 && b in l.blocks
    requires |l.blocks[b]| == BLOCK_SIZE
    requires b < NO_BLOCK
  {
    if l.nfree < NBLKS_PER_FNODE - 1 then
      l.(free := l.free[l.nfree := b], nfree := l.nfree + 1)
    else
      Layout(l.blocks[b := PackAll(l.free) + l.blocks[b][4 * NBLKS_PER_FNODE..]], l.free[NBLKS_PER_FNODE - 1 := b], 0)
  }

  function PushedNodes(l: Layout, nodes: seq<nat>, b: nat): seq<nat>
  {
    if l.nfree < NBLKS_PER_FNODE - 1 then nodes else [b] + nodes
  }

  lemma NodeStored(free: seq<word>, rest: seq<byte>)
    requires |free| == NBLKS_PER_FNODE && |rest| == BLOCK_SIZE - 4 * NBLKS_PER_FNODE
    ensures var b := PackAll(free) + rest;
            && |b| == BLOCK_SIZE
            && NodeWords(b) == free[..NBLKS_PER_FNODE - 1] && Link(b) == free[NBLKS_PER_FNODE - 1]
  {
    forall i: nat | i < NBLKS_PER_FNODE ensures WordAt(PackAll(free) + rest, i) == free[i] { PackAllAt(free, rest, i); }
  }

  /** On the stack, it is a push. */
  lemma PushedStack(l: Layout, nodes: seq<nat>, b: nat)
    requires FreeList(l, nodes) && b in l.blocks && b !in Stack(l, nodes)
    ensures FreeList(Pushed(l, b), PushedNodes(l, nodes, b))
    ensures Stack(Pushed(l, b), PushedNodes(l, nodes, b)) == Stack(l, nodes) + [b]
  {
    var l', link := Pushed(l, b), l.free[NBLKS_PER_FNODE - 1];
    if l.nfree < NBLKS_PER_FNODE - 1 {
      assert l'.free[..l'.nfree] == l.free[..l.nfree] + [b];
    } else {
      var rest := l.blocks[b][4 * NBLKS_PER_FNODE..];
      NodeStored(l.free, rest);
      NodesListed(l.blocks, link, nodes);
      NodesExist(l.blocks, link, nodes);
      assert b !in nodes;
      NodesKept(l.blocks, l'.blocks, link, nodes);
      assert ([b] + nodes)[1..] == nodes;
      assert Stack(l', [b] + nodes) == InNodes(l.blocks, link, nodes) + l.free[..NBLKS_PER_FNODE - 1] + [b];
    }
    assert Stack(l', PushedNodes(l, nodes, b)) == Stack(l, nodes) + [b];
    PushNoDup(Stack(l, nodes), b);
  }

  lemma PushNoDup(s: seq<nat>, b: nat)
    requires NoDup(s) && b !in s
    ensures NoDup(s + [b])
  {
  }

  /** Allocating takes a block from the superblock, or the next node with all it holds. */
  function Popped(l: Layout): Layout
    requires |l.free| == NBLKS_PER_FNODE && l.nfree <= NBLKS_PER_FNODE - 1
    requires l.nfree == 0 ==>
              var link := l.free[NBLKS_PER_FNODE - 1]; link in l.blocks && |l.blocks[link]| == BLOCK_SIZE
  {
    if l.nfree > 0 then l.(nfree := l.nfree - 1)
    else
      var node := l.blocks[l.free[NBLKS_PER_FNODE - 1]];
      l.(free := NodeWords(node) + [Link(node)], nfree := NBLKS_PER_FNODE - 1)
  }

  function PoppedNodes(l: Layout, nodes: seq<nat>): seq<nat>
  {
    if l.nfree > 0 || nodes == [] then nodes else nodes[1..]
  }

  lemma StackEmpty(l: Layout, nodes: seq<nat>)
    requires Chained(l, nodes)
    ensures Stack(l, nodes) == [] <==> l.nfree == 0 && l.free[NBLKS_PER_FNODE - 1] == NO_BLOCK
  {
  }

  /** On the stack, it is a pop. */
  lemma PoppedStack(l: Layout, nodes: seq<nat>)
    requires FreeList(l, nodes) && Stack(l, nodes) != []
    ensures l.nfree == 0 ==> l.free[NBLKS_PER_FNODE - 1] in l.blocks
    ensures FreeList(Popped(l), PoppedNodes(l, nodes))
    ensures Stack(l, nodes) == Stack(Popped(l), PoppedNodes(l, nodes))
                             + [if l.nfree > 0 then l.free[l.nfree - 1] else l.free[NBLKS_PER_FNODE - 1]]
  {
    var l' := Popped(l);
    if l.nfree > 0 {
      assert l.free[..l.nfree] == l'.free[..l'.nfree] + [l.free[l.nfree - 1]];
    } else {
      var link := l.free[NBLKS_PER_FNODE - 1];
      var words := NodeWords(l.blocks[link]);
      assert (words + [Link(l.blocks[link])])[..NBLKS_PER_FNODE - 1] == words;
    }
    var s, s' := Stack(l, nodes), Stack(l', PoppedNodes(l, nodes));
    assert s == s' + [s[|s| - 1]];
    PrefixNoDup(s, s', s[|s| - 1]);
  }

  lemma PrefixNoDup(s: seq<nat>, s': seq<nat>, x: nat)
    requires NoDup(s) && s == s' + [x]
    ensures NoDup(s') && x !in s'
  {
    assert forall i :: 0 <= i < |s'| ==> s[i] == s'[i];
    assert s[|s'|] == x;
  }

  /** What was freed last is allocated first, and then the list is as it was. */
  lemma FreeThenAlloc(l: Layout, nodes: seq<nat>, b: nat)
    requires FreeList(l, nodes) && b in l.blocks && b !in Stack(l, nodes)
    ensures var l', nodes' := Pushed(l, b), PushedNodes(l, nodes, b);
            && FreeList(l', nodes') && Stack(l', nodes') != []
            && (if l'.nfree > 0 then l'.free[l'.nfree - 1] else l'.free[NBLKS_PER_FNODE - 1]) == b
            && (l'.nfree == 0 ==> l'.free[NBLKS_PER_FNODE - 1] in l'.blocks)
            && FreeList(Popped(l'), PoppedNodes(l', nodes'))
            && Stack(Popped(l'), PoppedNodes(l', nodes')) == Stack(l, nodes)
  {
    var l', nodes' := Pushed(l, b), PushedNodes(l, nodes, b);
    PushedStack(l, nodes, b);
    PoppedStack(l', nodes');
    var s, s' := Stack(l, nodes), Stack(Popped(l'), PoppedNodes(l', nodes'));
    var top := if l'.nfree > 0 then l'.free[l'.nfree - 1] else l'.free[NBLKS_PER_FNODE - 1];
    assert (s + [b])[|s|] == b && (s' + [top])[|s'|] == top;
    assert s == (s + [b])[..|s|] && s' == (s' + [top])[..|s'|];
  }
}
