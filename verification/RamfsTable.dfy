/**
 The inode table of the memory file system (kernel/fs/ramfs/ramfs.c) and the table
 of vnodes in use (kernel/fs/vnode.c): who is named by how many directory entries,
 and what the link counts have to do with it.
 */
module RamfsTable {
  import opened Options

  const MAX_FILES: nat := 64
  const MAX_DIRENT: nat := 128
  const NAME_LEN: nat := 28
  const ROOT: nat := 0

  datatype Mode = Data | Dir | Chr | Blk

  /** A slot of a directory; it is free if the name is empty. */
  datatype Dirent = Dirent(ino: nat, name: string)

  datatype Inode = Inode(mode: Mode, linkcount: int, entries: seq<Dirent>)

  type Table = seq<Option<Inode>>

  // Who is named how often

  /** The entry is a name of an inode, other than "." and "..". */
  predicate IsName(e: Dirent) { e.name != "" && e.name != "." && e.name != ".." }

  function EntryCount(e: Dirent, i: nat): nat { if IsName(e) && e.ino == i then 1 else 0 }

  function DirCount(es: seq<Dirent>, i: nat): nat
  {
    if es == [] then 0 else DirCount(es[..|es| - 1], i) + EntryCount(es[|es| - 1], i)
  }

  function InodeCount(o: Option<Inode>, i: nat): nat
  {
    if o.Some? && o.value.mode == Dir then DirCount(o.value.entries, i) else 0
  }

  /** How many directory entries name inode i. */
  function Names(t: Table, i: nat): nat
  {
    if t == [] then 0 else Names(t[..|t| - 1], i) + InodeCount(t[|t| - 1], i)
  }

  lemma {:induction false} DirUpdate(es: seq<Dirent>, k: nat, e: Dirent, i: nat)
    requires k < |es|
    ensures DirCount(es[k := e], i) + EntryCount(es[k], i) == DirCount(es, i) + EntryCount(e, i)
  {
    var n := |es| - 1;
    if k == n {
      assert es[k := e][..n] == es[..n];
    } else {
      assert es[k := e][..n] == es[..n][k := e];
      DirUpdate(es[..n], k, e, i);
    }
  }

  lemma {:induction false} TableUpdate(t: Table, d: nat, o: Option<Inode>, i: nat)
    requires d < |t|
    ensures Names(t[d := o], i) + InodeCount(t[d], i) == Names(t, i) + InodeCount(o, i)
  {
    var n := |t| - 1;
    if d == n {
      assert t[d := o][..n] == t[..n];
    } else {
      assert t[d := o][..n] == t[..n][d := o];
      TableUpdate(t[..n], d, o, i);
    }
  }

  /** The inodes that the names in a directory stand for. */
  function DirNames(es: seq<Dirent>): multiset<nat>
  {
    if es == [] then multiset{}
    else DirNames(es[..|es| - 1]) + (if IsName(es[|es| - 1]) then multiset{es[|es| - 1].ino} else multiset{})
  }

  function InodeNames(o: Option<Inode>): multiset<nat>
  {
    if o.Some? && o.value.mode == Dir then DirNames(o.value.entries) else multiset{}
  }

  lemma {:induction false} NamesAreCounted(es: seq<Dirent>, i: nat)
    ensures DirNames(es)[i] == DirCount(es, i)
  {
    if es != [] { NamesAreCounted(es[..|es| - 1], i); }
  }

  // The invariant

  datatype Fs = Fs(t: Table, vnodes: map<nat, nat>, orphans: multiset<nat>)

  function One(b: bool): nat { if b then 1 else 0 }

  /**
   What the link count should be: directory entries, the root, a vnode in use; and entries lost with their directory.
   */
  function Links(fs: Fs, i: nat): nat
  {
    Names(fs.t, i) + fs.orphans[i] + One(i == ROOT) + One(i in fs.vnodes)
  }

  ghost predicate IsDir(t: Table, d: nat) { d < |t| && t[d].Some? && t[d].value.mode == Dir }

  /** A directory has its slots, the first two for itself and its parent. */
  ghost predicate DirOk(inode: Inode, i: nat)
  {
    inode.mode == Dir ==>
      && |inode.entries| == MAX_DIRENT && inode.entries[0] == Dirent(i, ".")
      && inode.entries[1].name == ".." && inode.entries[1].ino < MAX_FILES
  }

  ghost predicate Inv(fs: Fs)
  {
    && |fs.t| == MAX_FILES && IsDir(fs.t, ROOT)
    && (forall i: nat :: i < |fs.t| && fs.t[i].Some? ==> DirOk(fs.t[i].value, i))
    && (forall v :: v in fs.vnodes ==> v < |fs.t| && fs.t[v].Some? && fs.vnodes[v] > 0)
    && (forall i: nat :: i < |fs.t| && fs.t[i].Some? ==> fs.t[i].value.linkcount == Links(fs, i) && Links(fs, i) > 0)
    && (forall i: nat :: i >= |fs.t| || fs.t[i].None? ==> Names(fs.t, i) == 0 && fs.orphans[i] == 0)
  }

  lemma {:induction false} NamedByEntry(t: Table, d: nat, k: nat)
    requires IsDir(t, d) && k < |t[d].value.entries| && IsName(t[d].value.entries[k])
    ensures Names(t, t[d].value.entries[k].ino) > 0
    decreases |t|
  {
    var n := |t| - 1;
    if d == n { CountedInDir(t[d].value.entries, k); } else { NamedByEntry(t[..n], d, k); }
  }

  lemma {:induction false} CountedInDir(es: seq<Dirent>, k: nat)
    requires k < |es| && IsName(es[k])
    ensures DirCount(es, es[k].ino) > 0
  {
    if k < |es| - 1 { CountedInDir(es[..|es| - 1], k); }
  }

  /** No entry of any directory, other than "." and "..", names an inode that is not there. */
  lemma NoDangling(fs: Fs, d: nat, k: nat)
    requires Inv(fs) && IsDir(fs.t, d) && k < MAX_DIRENT && k < |fs.t[d].value.entries|
    requires IsName(fs.t[d].value.entries[k])
    ensures fs.t[d].value.entries[k].ino < MAX_FILES && fs.t[fs.t[d].value.entries[k].ino].Some?
  {
    hide Names, Links;
    NamedByEntry(fs.t, d, k);
  }

  // Changes

  /** i gets a vnode, and the link count goes up. */
  function VnodeRead(fs: Fs, i: nat): Fs
    requires i < |fs.t| && fs.t[i].Some?
  {
    fs.(t := fs.t[i := Some(fs.t[i].value.(linkcount := fs.t[i].value.linkcount + 1))], vnodes := fs.vnodes[i := 1])
  }

  /** Its last reference is dropped: the link count goes down, and the inode goes at zero, with all names in it. */
  function VnodeDeleted(fs: Fs, i: nat): Fs
    requires i < |fs.t| && fs.t[i].Some?
  {
    var inode := fs.t[i].value.(linkcount := fs.t[i].value.linkcount - 1);
    if inode.linkcount == 0 then
      Fs(fs.t[i := None], fs.vnodes - {i}, fs.orphans + InodeNames(fs.t[i]))
    else fs.(t := fs.t[i := Some(inode)], vnodes := fs.vnodes - {i})
  }

  /** Changing only link counts of one inode changes nobody's names. */
  lemma SameNames(t: Table, i: nat, inode: Inode, j: nat)
    requires i < |t| && t[i].Some? && inode.mode == t[i].value.mode && inode.entries == t[i].value.entries
    ensures Names(t[i := Some(inode)], j) == Names(t, j)
  {
    TableUpdate(t, i, Some(inode), j);
  }

  lemma VnodeReadInv(fs: Fs, i: nat)
    requires Inv(fs) && i < MAX_FILES && fs.t[i].Some? && i !in fs.vnodes
    ensures Inv(VnodeRead(fs, i))
  {
    hide Names;
    var fs' := VnodeRead(fs, i);
    forall j: nat ensures Names(fs'.t, j) == Names(fs.t, j) { SameNames(fs.t, i, fs'.t[i].value, j); }
  }

  /** An inode goes exactly when nothing names it and its vnode goes. */
  lemma VnodeDeletedInv(fs: Fs, i: nat)
    requires Inv(fs) && i in fs.vnodes
    ensures Inv(VnodeDeleted(fs, i))
    ensures VnodeDeleted(fs, i).t[i].None? <==> Names(fs.t, i) == 0 && fs.orphans[i] == 0 && i != ROOT
  {
    hide Names;
    if fs.t[i].value.linkcount == 1 { Freed(fs, i); } else { NotFreed(fs, i); }
  }

  lemma NotFreed(fs: Fs, i: nat)
    requires Inv(fs) && i in fs.vnodes && fs.t[i].value.linkcount != 1
    ensures Inv(VnodeDeleted(fs, i))
  {
    hide Names;
    var fs' := VnodeDeleted(fs, i);
    forall j: nat ensures Names(fs'.t, j) == Names(fs.t, j) { SameNames(fs.t, i, fs'.t[i].value, j); }
  }

  lemma Freed(fs: Fs, i: nat)
    requires Inv(fs) && i in fs.vnodes && fs.t[i].value.linkcount == 1
    ensures Inv(VnodeDeleted(fs, i))
  {
    hide Names, DirCount, DirNames, Links;
    var fs' := VnodeDeleted(fs, i);
    LinksAre(fs, i);
    forall j: nat
      ensures Names(fs'.t, j) + fs'.orphans[j] == Names(fs.t, j) + fs.orphans[j]
      ensures j != i ==> Links(fs', j) == Links(fs, j)
    {
      TableUpdate(fs.t, i, None, j);
      NamesAreCounted(fs.t[i].value.entries, j);
      LinksAre(fs, j);
      LinksAre(fs', j);
    }
  }

  lemma LinksAre(fs: Fs, i: nat)
    ensures Links(fs, i) == Names(fs.t, i) + fs.orphans[i] + One(i == ROOT) + One(i in fs.vnodes)
  {
  }

  /** Writing a slot of directory d. */
  function WithSlot(t: Table, d: nat, k: nat, e: Dirent): Table
    requires d < |t| && t[d].Some? && k < |t[d].value.entries|
  {
    t[d := Some(t[d].value.(entries := t[d].value.entries[k := e]))]
  }

  function WithLinks(t: Table, i: nat, n: int): Table
    requires i < |t| && t[i].Some?
  {
    t[i := Some(t[i].value.(linkcount := t[i].value.linkcount + n))]
  }

  lemma SlotNames(t: Table, d: nat, k: nat, e: Dirent, j: nat)
    requires IsDir(t, d) && k < |t[d].value.entries|
    ensures Names(WithSlot(t, d, k, e), j) + EntryCount(t[d].value.entries[k], j) == Names(t, j) + EntryCount(e, j)
  {
    TableUpdate(t, d, WithSlot(t, d, k, e)[d], j);
    DirUpdate(t[d].value.entries, k, e, j);
  }

  lemma LinksNames(t: Table, i: nat, n: int, j: nat)
    requires i < |t| && t[i].Some?
    ensures Names(WithLinks(t, i, n), j) == Names(t, j)
  {
    SameNames(t, i, WithLinks(t, i, n)[i].value, j);
  }

  /** Another name for inode i. */
  lemma LinkInv(fs: Fs, d: nat, k: nat, i: nat, name: string)
    requires Inv(fs) && IsDir(fs.t, d) && 2 <= k < MAX_DIRENT && k < |fs.t[d].value.entries|
    requires fs.t[d].value.entries[k].name == ""
    requires i < MAX_FILES && fs.t[i].Some? && IsName(Dirent(i, name))
    ensures Inv(fs.(t := WithLinks(WithSlot(fs.t, d, k, Dirent(i, name)), i, 1)))
  {
    hide Names, Links;
    var t1 := WithSlot(fs.t, d, k, Dirent(i, name));
    var fs' := fs.(t := WithLinks(t1, i, 1));
    forall j: nat
      ensures Names(fs'.t, j) == Names(fs.t, j) + One(j == i) && Links(fs', j) == Links(fs, j) + One(j == i)
    {
      SlotNames(fs.t, d, k, Dirent(i, name), j);
      LinksNames(t1, i, 1, j);
      LinksAre(fs, j);
      LinksAre(fs', j);
    }
  }

  /** A name is taken away, while the inode has a vnode. */
  lemma UnlinkInv(fs: Fs, d: nat, k: nat)
    requires Inv(fs) && IsDir(fs.t, d) && 2 <= k < MAX_DIRENT && k < |fs.t[d].value.entries|
    requires IsName(fs.t[d].value.entries[k])
    requires fs.t[d].value.entries[k].ino in fs.vnodes
    ensures var e := fs.t[d].value.entries[k]; Inv(fs.(t := WithLinks(WithSlot(fs.t, d, k, e.(name := "")), e.ino, -1)))
  {
    hide Names, Links;
    var e := fs.t[d].value.entries[k];
    var t1 := WithSlot(fs.t, d, k, e.(name := ""));
    var fs' := fs.(t := WithLinks(t1, e.ino, -1));
    forall j: nat
      ensures Names(fs'.t, j) == Names(fs.t, j) - One(j == e.ino) && Links(fs', j) == Links(fs, j) - One(j == e.ino)
      ensures j in fs'.vnodes ==> Links(fs', j) > 0
    {
      SlotNames(fs.t, d, k, e.(name := ""), j);
      LinksNames(t1, e.ino, -1, j);
      LinksAre(fs, j);
      LinksAre(fs', j);
    }
  }

  /** An inode that holds no names of others. */
  ghost predicate Blank(inode: Inode, i: nat)
  {
    && inode.linkcount == 1 && DirOk(inode, i)
    && (inode.mode == Dir ==> forall k :: 0 <= k < |inode.entries| ==> !IsName(inode.entries[k]))
  }

  lemma {:induction false} NoNames(es: seq<Dirent>, i: nat)
    requires forall k :: 0 <= k < |es| ==> !IsName(es[k])
    ensures DirCount(es, i) == 0
  {
    if es != [] { NoNames(es[..|es| - 1], i); }
  }

  /** A new inode, and its name. */
  lemma AddInv(fs: Fs, d: nat, k: nat, i: nat, inode: Inode, name: string)
    requires Inv(fs) && IsDir(fs.t, d) && 2 <= k < MAX_DIRENT && k < |fs.t[d].value.entries|
    requires fs.t[d].value.entries[k].name == ""
    requires i < MAX_FILES && fs.t[i].None? && Blank(inode, i) && IsName(Dirent(i, name))
    ensures Inv(fs.(t := WithSlot(fs.t[i := Some(inode)], d, k, Dirent(i, name))))
  {
    hide Names, Links, DirCount;
    var t1 := fs.t[i := Some(inode)];
    var fs' := fs.(t := WithSlot(t1, d, k, Dirent(i, name)));
    forall j: nat
      ensures Names(fs'.t, j) == Names(fs.t, j) + One(j == i) && Links(fs', j) == Links(fs, j) + One(j == i)
    {
      TableUpdate(fs.t, i, Some(inode), j);
      if inode.mode == Dir { NoNames(inode.entries, j); }
      SlotNames(t1, d, k, Dirent(i, name), j);
      LinksAre(fs, j);
      LinksAre(fs', j);
    }
    LinksAre(fs', i);
    LinksAre(fs, i);
  }

  // Names that are not lost

  ghost predicate HasNames(inode: Inode)
  {
    inode.mode == Dir && exists k :: 0 <= k < |inode.entries| && IsName(inode.entries[k])
  }

  /** A directory with names in it is itself named, or the root. */
  ghost predicate Reachable(t: Table, d: nat)
    requires d < |t| && t[d].Some?
  {
    HasNames(t[d].value) ==> d == ROOT || Names(t, d) > 0
  }

  /** No names have been lost, and none can be. */
  ghost predicate Tidy(fs: Fs)
  {
    fs.orphans == multiset{} && forall d: nat :: d < |fs.t| && fs.t[d].Some? ==> Reachable(fs.t, d)
  }

  /** The link counts are what the design says exactly if no names have been lost. */
  lemma RightCounts(fs: Fs)
    requires Inv(fs)
    ensures fs.orphans == multiset{} <==>
            forall i: nat :: i < MAX_FILES && fs.t[i].Some? ==>
              fs.t[i].value.linkcount == Names(fs.t, i) + One(i == ROOT) + One(i in fs.vnodes)
  {
    hide Names;
    if fs.orphans != multiset{} {
      var i :| i in fs.orphans;
      assert i < MAX_FILES && fs.t[i].Some?;
      assert fs.t[i].value.linkcount == Links(fs, i);
    }
  }

  lemma {:induction false} NamelessDir(es: seq<Dirent>)
    requires forall k :: 0 <= k < |es| ==> !IsName(es[k])
    ensures DirNames(es) == multiset{}
  {
    if es != [] { NamelessDir(es[..|es| - 1]); }
  }

  lemma {:induction false} NamesOfDir(es: seq<Dirent>, k: nat)
    requires k < |es| && IsName(es[k])
    ensures DirNames(es) != multiset{}
  {
    assert es[k].ino in DirNames(es) by { InDirNames(es, k); }
  }

  lemma {:induction false} InDirNames(es: seq<Dirent>, k: nat)
    requires k < |es| && IsName(es[k])
    ensures es[k].ino in DirNames(es)
  {
    if k < |es| - 1 { InDirNames(es[..|es| - 1], k); }
  }

  /** Names are lost exactly when the vnode of a directory goes that has some and that nothing names. */
  lemma LostNames(fs: Fs, i: nat)
    requires Inv(fs) && i in fs.vnodes
    ensures VnodeDeleted(fs, i).orphans != fs.orphans
       <==> Names(fs.t, i) == 0 && fs.orphans[i] == 0 && i != ROOT && HasNames(fs.t[i].value)
  {
    hide Names, Links;
    VnodeDeletedInv(fs, i);
    var inode := fs.t[i].value;
    if HasNames(inode) {
      var k :| 0 <= k < |inode.entries| && IsName(inode.entries[k]);
      NamesOfDir(inode.entries, k);
      Grows(fs.orphans, DirNames(inode.entries));
    } else if inode.mode == Dir {
      NamelessDir(inode.entries);
    }
  }

  lemma Grows(a: multiset<nat>, b: multiset<nat>)
    requires b != multiset{}
    ensures a + b != a
  {
    assert |a + b| == |a| + |b|;
  }

  lemma TidyRead(fs: Fs, i: nat)
    requires Inv(fs) && Tidy(fs) && i < MAX_FILES && fs.t[i].Some?
    ensures Tidy(VnodeRead(fs, i))
  {
    hide Names;
    var fs' := VnodeRead(fs, i);
    forall d: nat | d < |fs'.t| && fs'.t[d].Some? ensures Reachable(fs'.t, d) {
      SameNames(fs.t, i, fs'.t[i].value, d);
      assert Reachable(fs.t, d);
    }
  }

  lemma TidyDeleted(fs: Fs, i: nat)
    requires Inv(fs) && Tidy(fs) && i in fs.vnodes
    ensures Tidy(VnodeDeleted(fs, i))
  {
    hide Names, DirCount;
    var fs' := VnodeDeleted(fs, i);
    VnodeDeletedInv(fs, i);
    LostNames(fs, i);
    assert Reachable(fs.t, i);
    forall d: nat | d < |fs'.t| && fs'.t[d].Some? ensures Reachable(fs'.t, d) {
      assert Reachable(fs.t, d);
      if fs'.t[i].Some? {
        SameNames(fs.t, i, fs'.t[i].value, d);
      } else {
        TableUpdate(fs.t, i, None, d);
        if fs.t[i].value.mode == Dir { NoNames(fs.t[i].value.entries, d); }
      }
    }
  }

  lemma TidyAdd(fs: Fs, d: nat, k: nat, i: nat, inode: Inode, name: string)
    requires Inv(fs) && Tidy(fs) && IsDir(fs.t, d) && k < |fs.t[d].value.entries| && fs.t[d].value.entries[k].name == ""
    requires i < MAX_FILES && fs.t[i].None? && Blank(inode, i) && IsName(Dirent(i, name))
    requires (d == ROOT || Names(fs.t, d) > 0)
    ensures Tidy(fs.(t := WithSlot(fs.t[i := Some(inode)], d, k, Dirent(i, name))))
  {
    hide Names, DirCount;
    var t1 := fs.t[i := Some(inode)];
    var fs' := fs.(t := WithSlot(t1, d, k, Dirent(i, name)));
    forall x: nat | x < |fs'.t| && fs'.t[x].Some? ensures Reachable(fs'.t, x) {
      TableUpdate(fs.t, i, Some(inode), x);
      if inode.mode == Dir { NoNames(inode.entries, x); }
      SlotNames(t1, d, k, Dirent(i, name), x);
      if x != i { assert Reachable(fs.t, x); }
    }
  }

  lemma TidyLink(fs: Fs, d: nat, k: nat, i: nat, name: string)
    requires Inv(fs) && Tidy(fs) && IsDir(fs.t, d) && k < |fs.t[d].value.entries| && fs.t[d].value.entries[k].name == ""
    requires i < MAX_FILES && fs.t[i].Some? && IsName(Dirent(i, name)) && (d == ROOT || Names(fs.t, d) > 0)
    ensures Tidy(fs.(t := WithLinks(WithSlot(fs.t, d, k, Dirent(i, name)), i, 1)))
  {
    hide Names;
    var t1 := WithSlot(fs.t, d, k, Dirent(i, name));
    var fs' := fs.(t := WithLinks(t1, i, 1));
    forall x: nat | x < |fs'.t| && fs'.t[x].Some? ensures Reachable(fs'.t, x) {
      SlotNames(fs.t, d, k, Dirent(i, name), x);
      LinksNames(t1, i, 1, x);
      assert Reachable(fs.t, x);
    }
  }

  /** Taking away a name of a file, or of a directory without names in it. */
  lemma TidyUnlink(fs: Fs, d: nat, k: nat)
    requires Inv(fs) && Tidy(fs) && IsDir(fs.t, d) && k < |fs.t[d].value.entries| && IsName(fs.t[d].value.entries[k])
    requires var i := fs.t[d].value.entries[k].ino; i < MAX_FILES && fs.t[i].Some? && !HasNames(fs.t[i].value)
    ensures var e := fs.t[d].value.entries[k];
            Tidy(fs.(t := WithLinks(WithSlot(fs.t, d, k, e.(name := "")), e.ino, -1)))
  {
    hide Names;
    var e := fs.t[d].value.entries[k];
    var t1 := WithSlot(fs.t, d, k, e.(name := ""));
    var fs' := fs.(t := WithLinks(t1, e.ino, -1));
    forall x: nat | x < |fs'.t| && fs'.t[x].Some? ensures Reachable(fs'.t, x) {
      SlotNames(fs.t, d, k, e.(name := ""), x);
      LinksNames(t1, e.ino, -1, x);
      assert Reachable(fs.t, x);
    }
  }

  // The parents of directories

  /** Directory d is named in the directory that its ".." stands for. */
  ghost predicate HasParent(t: Table, d: nat)
    requires IsDir(t, d) && |t[d].value.entries| > 1
  {
    var p := t[d].value.entries[1].ino;
    IsDir(t, p) && DirCount(t[p].value.entries, d) > 0
  }

  ghost predicate RootedAt(t: Table, d: nat)
  {
    IsDir(t, d) && |t[d].value.entries| > 1 ==>
      if d == ROOT then t[ROOT].value.entries[1].ino == ROOT && Names(t, ROOT) == 0
      else Names(t, d) <= 1 && (Names(t, d) == 1 ==> HasParent(t, d))
  }

  /** No directory has two names, and one that has a name has it in its parent. */
  ghost predicate Rooted(fs: Fs) { forall d: nat :: d < |fs.t| ==> RootedAt(fs.t, d) }

  /** The "." of a directory stands for the directory. */
  lemma DotIsSelf(fs: Fs, d: nat)
    requires Inv(fs) && IsDir(fs.t, d)
    ensures |fs.t[d].value.entries| > 0 && fs.t[d].value.entries[0] == Dirent(d, ".")
  {
    hide Names, Links;
    assert DirOk(fs.t[d].value, d);
  }

  /** The ".." of a directory that has a name stands for the directory where it has it. */
  lemma ParentThere(fs: Fs, d: nat)
    requires Inv(fs) && Rooted(fs) && IsDir(fs.t, d) && (d == ROOT || Names(fs.t, d) > 0)
    ensures |fs.t[d].value.entries| > 1 && fs.t[d].value.entries[1].name == ".."
    ensures var p := fs.t[d].value.entries[1].ino;
            IsDir(fs.t, p) && (d == ROOT || DirCount(fs.t[p].value.entries, d) == 1)
  {
    hide Names, Links, DirCount;
    assert DirOk(fs.t[d].value, d);
    assert RootedAt(fs.t, d);
    if d != ROOT { CountedOnce(fs.t, fs.t[d].value.entries[1].ino, d); }
  }

  /** The names in one directory are among all names. */
  lemma {:induction false} CountedOnce(t: Table, p: nat, d: nat)
    requires IsDir(t, p)
    ensures DirCount(t[p].value.entries, d) <= Names(t, d)
    decreases |t|
  {
    if p < |t| - 1 { CountedOnce(t[..|t| - 1], p, d); }
  }

  /** What ".." stands for goes exactly when the vnode of that directory does and nothing names it. */
  lemma ParentLost(fs: Fs, d: nat, i: nat)
    requires Inv(fs) && IsDir(fs.t, d) && i in fs.vnodes
    ensures DirOk(fs.t[d].value, d)
    ensures var p := fs.t[d].value.entries[1].ino;
            fs.t[p].Some? && VnodeDeleted(fs, i).t[p].None?
            <==> p == i && Names(fs.t, p) == 0 && fs.orphans[p] == 0 && p != ROOT
  {
    hide Names, Links;
    VnodeDeletedInv(fs, i);
  }

  lemma RootedRead(fs: Fs, i: nat)
    requires Rooted(fs) && i < |fs.t| && fs.t[i].Some?
    ensures Rooted(VnodeRead(fs, i))
  {
    hide Names, DirCount;
    var fs' := VnodeRead(fs, i);
    forall d: nat | d < |fs'.t| ensures RootedAt(fs'.t, d) {
      SameNames(fs.t, i, fs'.t[i].value, d);
      assert RootedAt(fs.t, d);
    }
  }

  lemma RootedDeleted(fs: Fs, i: nat)
    requires Inv(fs) && Rooted(fs) && i in fs.vnodes
    ensures Rooted(VnodeDeleted(fs, i))
  {
    hide Names, DirCount;
    var fs' := VnodeDeleted(fs, i);
    VnodeDeletedInv(fs, i);
    forall d: nat | d < |fs'.t| ensures RootedAt(fs'.t, d) {
      assert RootedAt(fs.t, d);
      if fs'.t[i].Some? { SameNames(fs.t, i, fs'.t[i].value, d); } else { TableUpdate(fs.t, i, None, d); }
    }
  }

  lemma RootedAdd(fs: Fs, d: nat, k: nat, i: nat, inode: Inode, name: string)
    requires Inv(fs) && Rooted(fs) && IsDir(fs.t, d) && 2 <= k < |fs.t[d].value.entries|
    requires fs.t[d].value.entries[k].name == ""
    requires i < MAX_FILES && fs.t[i].None? && Blank(inode, i) && IsName(Dirent(i, name))
    requires inode.mode == Dir ==> |inode.entries| > 1 && inode.entries[1].ino == d
    ensures Rooted(fs.(t := WithSlot(fs.t[i := Some(inode)], d, k, Dirent(i, name))))
  {
    hide Names, DirCount, Links;
    var t1 := fs.t[i := Some(inode)];
    var t2 := WithSlot(t1, d, k, Dirent(i, name));
    assert d != i;
    forall x: nat | x < |t2| ensures RootedAt(t2, x) {
      assert RootedAt(fs.t, x);
      TableUpdate(fs.t, i, Some(inode), x);
      if inode.mode == Dir { NoNames(inode.entries, x); }
      SlotNames(t1, d, k, Dirent(i, name), x);
      DirUpdate(t1[d].value.entries, k, Dirent(i, name), x);
    }
  }

  /** Another name for something other than a directory. */
  lemma RootedLink(fs: Fs, d: nat, k: nat, i: nat, name: string)
    requires Rooted(fs) && IsDir(fs.t, d) && 2 <= k < |fs.t[d].value.entries| && fs.t[d].value.entries[k].name == ""
    requires i < |fs.t| && fs.t[i].Some? && fs.t[i].value.mode != Dir && IsName(Dirent(i, name))
    ensures Rooted(fs.(t := WithLinks(WithSlot(fs.t, d, k, Dirent(i, name)), i, 1)))
  {
    hide Names, DirCount;
    var t1 := WithSlot(fs.t, d, k, Dirent(i, name));
    var t2 := WithLinks(t1, i, 1);
    forall x: nat | x < |t2| ensures RootedAt(t2, x) {
      assert RootedAt(fs.t, x);
      SlotNames(fs.t, d, k, Dirent(i, name), x);
      LinksNames(t1, i, 1, x);
      DirUpdate(fs.t[d].value.entries, k, Dirent(i, name), x);
    }
  }

  lemma RootedUnlink(fs: Fs, d: nat, k: nat)
    requires Inv(fs) && Rooted(fs) && IsDir(fs.t, d) && 2 <= k < |fs.t[d].value.entries|
    requires IsName(fs.t[d].value.entries[k])
    requires var i := fs.t[d].value.entries[k].ino; i < MAX_FILES && fs.t[i].Some?
    ensures var e := fs.t[d].value.entries[k];
            Rooted(fs.(t := WithLinks(WithSlot(fs.t, d, k, e.(name := "")), e.ino, -1)))
  {
    hide Names, DirCount, Links;
    var e := fs.t[d].value.entries[k];
    var t1 := WithSlot(fs.t, d, k, e.(name := ""));
    var t2 := WithLinks(t1, e.ino, -1);
    NamedByEntry(fs.t, d, k);
    forall x: nat | x < |t2| ensures RootedAt(t2, x) {
      assert RootedAt(fs.t, x);
      SlotNames(fs.t, d, k, e.(name := ""), x);
      LinksNames(t1, e.ino, -1, x);
      DirUpdate(fs.t[d].value.entries, k, e.(name := ""), x);
    }
  }
}
