/**
 The operations of the memory file system (kernel/fs/ramfs/ramfs.c) and of the
 vnodes in use (kernel/fs/vnode.c), run one after the other. Whether there is memory
 for a new inode is a parameter.
 */
module Ramfs {
  import opened Options
  import opened RamfsTable

  const ENOENT: int := 2
  const ENOTDIR: int := 20
  const ENOSPC: int := 28
  const ENOTEMPTY: int := 39

  /** What strncpy leaves of a name. */
  function Stored(name: string): string { if |name| < NAME_LEN then name else name[..NAME_LEN - 1] }

  ghost predicate FreeSlot(es: seq<Dirent>, k: nat) { k < |es| && es[k].name == "" }

  ghost predicate Matches(es: seq<Dirent>, name: string, k: nat) { k < |es| && es[k].name == name }

  ghost predicate First(es: seq<Dirent>, name: string, k: nat)
  {
    Matches(es, name, k) && forall j :: 0 <= j < k ==> es[j].name != name
  }

  function NewInode(mode: Mode, i: nat, parent: nat): Inode
  {
    Inode(mode, 1,
          if mode == Dir then [Dirent(i, "."), Dirent(parent, "..")] + seq(MAX_DIRENT - 2, _ => Dirent(0, "")) else [])
  }

  lemma NewDir(i: nat, parent: nat)
    ensures var inode := NewInode(Dir, i, parent);
            && inode.mode == Dir && inode.linkcount == 1 && |inode.entries| == MAX_DIRENT
            && inode.entries[0] == Dirent(i, ".") && inode.entries[1] == Dirent(parent, "..")
            && forall x :: 2 <= x < MAX_DIRENT ==> inode.entries[x].name == ""
  {
  }

  lemma NewInodeBlank(mode: Mode, i: nat, parent: nat)
    requires parent < MAX_FILES
    ensures Blank(NewInode(mode, i, parent), i)
  {
  }

  /** A new inode i and its name in slot k of directory d. */
  ghost function Added(fs: Fs, d: nat, k: nat, i: nat, mode: Mode, name: string): Fs
    requires IsDir(fs.t, d) && FreeSlot(fs.t[d].value.entries, k) && i < |fs.t| && fs.t[i].None?
  {
    fs.(t := WithSlot(fs.t[i := Some(NewInode(mode, i, d))], d, k, Dirent(i, Stored(name))))
  }

  /**
   Inode i is there with its mode, a directory with entries for itself and its parent, and it is what the name stands
   for in directory d; of a name that is too long the first characters are kept.
   */
  ghost predicate Made(t: Table, d: nat, k: nat, i: nat, mode: Mode, name: string)
  {
    && IsDir(t, d) && k < |t[d].value.entries| && t[d].value.entries[k].ino == i
    && i < |t| && t[i].Some? && t[i].value.mode == mode
    && (mode == Dir ==>
          && |t[i].value.entries| >= 2 && t[i].value.entries[0] == Dirent(i, ".")
          && t[i].value.entries[1] == Dirent(d, ".."))
    && (|name| < NAME_LEN ==> First(t[d].value.entries, name, k))
    && (|name| >= NAME_LEN ==> t[d].value.entries[k].name == name[..NAME_LEN - 1])
  }

  lemma AddedIsMade(fs: Fs, d: nat, k: nat, i: nat, mode: Mode, name: string)
    requires IsDir(fs.t, d) && FreeSlot(fs.t[d].value.entries, k) && i < |fs.t| && fs.t[i].None?
    requires forall j :: 0 <= j < |fs.t[d].value.entries| ==> fs.t[d].value.entries[j].name != name
    ensures Made(Added(fs, d, k, i, mode, name).t, d, k, i, mode, name)
  {
  }

  class MemoryFs {
    var t: Table
    var vnodes: map<nat, nat>
    ghost var orphans: multiset<nat>

    ghost function Now(): Fs
      reads this
    {
      Fs(t, vnodes, orphans)
    }

    ghost predicate Valid()
      reads this
    {
      Inv(Now())
    }

    /** A directory whose vnode the caller holds. */
    ghost predicate HeldDir(d: nat)
      reads this
    {
      d in vnodes && IsDir(t, d)
    }

    /** ramfs_mount: the root directory, and its vnode. */
    constructor ()
      ensures Valid() && HeldDir(ROOT) && vnodes == map[ROOT := 1] && orphans == multiset{}
      ensures Rooted(Now())
      ensures t[ROOT] == Some(NewInode(Dir, ROOT, ROOT).(linkcount := 2))
      ensures forall i :: 1 <= i < MAX_FILES ==> t[i].None?
    {
      var root := NewInode(Dir, ROOT, ROOT).(linkcount := 2);
      t := [Some(root)] + seq(MAX_FILES - 1, _ => None);
      vnodes, orphans := map[ROOT := 1], multiset{};
      new;
      NewInodeBlank(Dir, ROOT, ROOT);
      MountedInv(t, root);
    }

    /** vget, for an inode that is there. */
    method Vget(i: nat)
      requires Valid() && i < MAX_FILES && t[i].Some?
      modifies this`t, this`vnodes
      ensures Valid() && i in vnodes
      ensures Now() == Got(old(Now()), i)
      ensures old(Tidy(Now())) ==> Tidy(Now())
      ensures old(Rooted(Now())) ==> Rooted(Now())
    {
      hide Inv, RootedAt;
      TableSize(Now());
      if Tidy(Now()) && i !in vnodes { TidyRead(Now(), i); }
      if Rooted(Now()) && i !in vnodes { RootedRead(Now(), i); }
      if i in vnodes {
        MoreReferences(Now(), i, vnodes[i] + 1);
        vnodes := vnodes[i := vnodes[i] + 1];
      } else {
        TableSize(Now());
        VnodeReadInv(Now(), i);
        t := WithLinks(t, i, 1);
        vnodes := vnodes[i := 1];
      }
    }

    /** vput: the inode goes exactly if this was the last reference and nothing names it. */
    method Vput(i: nat)
      requires Valid() && i in vnodes
      modifies this
      ensures Valid() && i < MAX_FILES && old(t)[i].Some?
      ensures Now() == Put(old(Now()), i)
      ensures old(Tidy(Now())) ==> Tidy(Now())
      ensures old(Rooted(Now())) ==> Rooted(Now())
      ensures t[i].None? <==> old(vnodes)[i] == 1 && Names(old(t), i) == 0 && old(orphans)[i] == 0 && i != ROOT
    {
      hide Inv, Names, Tidy, RootedAt;
      HeldExists(Now(), i);
      if Tidy(Now()) { TidyPut(Now(), i); }
      if Rooted(Now()) && vnodes[i] == 1 { RootedDeleted(Now(), i); }
      if vnodes[i] > 1 {
        MoreReferences(Now(), i, vnodes[i] - 1);
        vnodes := vnodes[i := vnodes[i] - 1];
        return;
      }
      VnodeDeletedInv(Now(), i);
      t := WithLinks(t, i, -1);
      if t[i].value.linkcount == 0 {
        orphans := orphans + InodeNames(old(t)[i]);
        t := t[i := None];
        assert t == old(t)[i := None];
      }
      vnodes := vnodes - {i};
    }

    /** The first slot with this name; the empty name finds a free one. */
    method FindSlot(d: nat, name: string) returns (r: Option<nat>)
      requires Valid() && IsDir(t, d)
      ensures r.Some? ==> First(t[d].value.entries, name, r.value) && r.value < MAX_DIRENT
      ensures r.None? ==> forall k :: 0 <= k < |t[d].value.entries| ==> t[d].value.entries[k].name != name
    {
      var entries := t[d].value.entries;
      assert DirOk(t[d].value, d);
      var i := 0;
      while i < MAX_DIRENT
        invariant 0 <= i <= MAX_DIRENT && forall k :: 0 <= k < i ==> entries[k].name != name
      {
        if entries[i].name == name {
          return Some(i);
        }
        i := i + 1;
      }
      return None;
    }

    /** ramfs_lookup: the vnode of what the name stands for; reading it in panics if the inode is gone. */
    method Lookup(d: nat, name: string) returns (r: Found, ghost k: nat)
      requires Valid() && HeldDir(d) && name != ""
      modifies this`t, this`vnodes
      ensures Valid()
      ensures r == NotThere
         <==> forall j :: 0 <= j < |old(t)[d].value.entries| ==> old(t)[d].value.entries[j].name != name
      ensures r != NotThere ==> First(old(t)[d].value.entries, name, k) && old(t)[d].value.entries[k].ino < |old(t)|
      ensures r == Panicked <==> name == ".." && r != NotThere && old(t)[old(t)[d].value.entries[k].ino].None?
      ensures r.Held? ==>
               r.ino == old(t)[d].value.entries[k].ino && old(t)[r.ino].Some? && Now() == Got(old(Now()), r.ino)
      ensures !r.Held? ==> Now() == old(Now())
      ensures old(Rooted(Now())) && (d == ROOT || Names(old(t), d) > 0) ==> r != Panicked
      ensures old(Tidy(Now())) ==> Tidy(Now())
      ensures old(Rooted(Now())) ==> Rooted(Now())
    {
      hide Inv, Names, Tidy, Rooted;
      k := 0;
      var slot := FindSlot(d, name);
      if slot.None? {
        return NotThere, 0;
      }
      k := slot.value;
      LookedUp(Now(), d, k, name);
      if Rooted(Now()) && (d == ROOT || Names(t, d) > 0) { ParentThere(Now(), d); }
      var i := t[d].value.entries[slot.value].ino;
      if t[i].None? {
        return Panicked, k;
      }
      Vget(i);
      return Held(i), k;
    }

    /** The first unused inode number, if there is memory for an inode. */
    method FreeInode(memory: bool) returns (r: Option<nat>)
      requires Valid()
      ensures r.Some? ==> memory && r.value < MAX_FILES && t[r.value].None?
      ensures r.None? ==> !memory || forall i :: 0 <= i < MAX_FILES ==> t[i].Some?
    {
      var i := 0;
      while i < MAX_FILES
        invariant 0 <= i <= MAX_FILES && forall k :: 0 <= k < i ==> t[k].Some?
      {
        if t[i].None? {
          return if memory then Some(i) else None;
        }
        i := i + 1;
      }
      return None;
    }

    /** There is no room in the directory, or no inode to be had. */
    ghost predicate NoRoom(d: nat, memory: bool)
      requires IsDir(t, d)
      reads this
    {
      || (forall k :: 0 <= k < |t[d].value.entries| ==> t[d].value.entries[k].name != "")
      || !memory
      || (forall i :: 0 <= i < |t| ==> t[i].Some?)
    }

    /** The part common to ramfs_create, ramfs_mknod and ramfs_mkdir: a new inode with a name in directory d. */
    method AddInode(d: nat, name: string, mode: Mode, memory: bool) returns (r: int, i: nat, ghost k: nat)
      requires Valid() && HeldDir(d) && name != "" && '\0' !in name
      requires forall j :: 0 <= j < |t[d].value.entries| ==> t[d].value.entries[j].name != name
      modifies this`t
      ensures Valid() && (r == 0 || r == -ENOSPC) && (r == -ENOSPC <==> old(NoRoom(d, memory)))
      ensures r != 0 ==> t == old(t)
      ensures r == 0 ==> i < MAX_FILES && old(t)[i].None? && FreeSlot(old(t)[d].value.entries, k)
      ensures r == 0 ==> Now() == Added(old(Now()), d, k, i, mode, name) && Made(t, d, k, i, mode, name)
      ensures r == 0 && old(Tidy(Now())) && (d == ROOT || Names(old(t), d) > 0) ==> Tidy(Now())
      ensures old(Rooted(Now())) ==> Rooted(Now())
    {
      hide Inv, Names, Rooted, Tidy;
      i, k := 0, 0;
      TableSize(Now());
      var slot := FindSlot(d, "");
      if slot.None? {
        return -ENOSPC, 0, 0;
      }
      var ino := FreeInode(memory);
      if ino.None? {
        return -ENOSPC, 0, 0;
      }
      i, k := ino.value, slot.value;
      GoodName(Now(), d, k, i, name);
      NewInodeBlank(mode, i, d);
      AddedIsMade(Now(), d, k, i, mode, name);
      AddInv(Now(), d, k, i, NewInode(mode, i, d), Stored(name));
      if Tidy(Now()) && (d == ROOT || Names(t, d) > 0) {
        TidyAdd(Now(), d, k, i, NewInode(mode, i, d), Stored(name));
      }
      if Rooted(Now()) { RootedAdd(Now(), d, k, i, NewInode(mode, i, d), Stored(name)); }
      t := t[i := Some(NewInode(mode, i, d))];
      t := WithSlot(t, d, slot.value, Dirent(i, Stored(name)));
      r := 0;
    }

    /** ramfs_create: a new file, and its vnode. */
    method Create(d: nat, name: string, memory: bool) returns (r: int, vn: nat, ghost k: nat)
      requires Valid() && HeldDir(d) && name != "" && '\0' !in name
      requires forall j :: 0 <= j < |t[d].value.entries| ==> t[d].value.entries[j].name != name
      modifies this
      ensures Valid() && (r == 0 || r == -ENOSPC) && (r == -ENOSPC <==> old(NoRoom(d, memory)))
      ensures r != 0 ==> Now() == old(Now())
      ensures r == 0 ==> vn < MAX_FILES && old(t)[vn].None? && FreeSlot(old(t)[d].value.entries, k)
      ensures r == 0 ==> Now() == VnodeRead(Added(old(Now()), d, k, vn, Data, name), vn)
      ensures r == 0 ==> Made(t, d, k, vn, Data, name)
      ensures old(Tidy(Now())) && (d == ROOT || Names(old(t), d) > 0) ==> Tidy(Now())
      ensures old(Rooted(Now())) ==> Rooted(Now())
    {
      hide Names, Inv, Tidy, Rooted;
      TableSize(Now());
      r, vn, k := AddInode(d, name, Data, memory);
      if r == 0 {
        NotHeld(old(Now()), vn);
        Vget(vn);
      }
    }

    /** ramfs_mknod: a new device. */
    method Mknod(d: nat, name: string, block: bool, memory: bool) returns (r: int, i: nat, ghost k: nat)
      requires Valid() && HeldDir(d) && name != "" && '\0' !in name
      requires forall j :: 0 <= j < |t[d].value.entries| ==> t[d].value.entries[j].name != name
      modifies this`t
      ensures Valid() && (r == 0 || r == -ENOSPC) && (r == -ENOSPC <==> old(NoRoom(d, memory)))
      ensures r != 0 ==> t == old(t)
      ensures r == 0 ==> i < MAX_FILES && old(t)[i].None? && FreeSlot(old(t)[d].value.entries, k)
      ensures r == 0 ==> Now() == Added(old(Now()), d, k, i, if block then Blk else Chr, name)
      ensures r == 0 ==> Made(t, d, k, i, if block then Blk else Chr, name)
      ensures old(Tidy(Now())) && (d == ROOT || Names(old(t), d) > 0) ==> Tidy(Now())
      ensures old(Rooted(Now())) ==> Rooted(Now())
    {
      hide Names, Inv, Tidy, Rooted;
      TableSize(Now());
      r, i, k := AddInode(d, name, if block then Blk else Chr, memory);
    }

    /** ramfs_mkdir: a new directory, with "." and "..". */
    method Mkdir(d: nat, name: string, memory: bool) returns (r: int, i: nat, ghost k: nat)
      requires Valid() && HeldDir(d) && name != "" && '\0' !in name
      requires forall j :: 0 <= j < |t[d].value.entries| ==> t[d].value.entries[j].name != name
      modifies this`t
      ensures Valid() && (r == 0 || r == -ENOSPC) && (r == -ENOSPC <==> old(NoRoom(d, memory)))
      ensures r != 0 ==> t == old(t)
      ensures r == 0 ==> i < MAX_FILES && old(t)[i].None? && FreeSlot(old(t)[d].value.entries, k)
      ensures r == 0 ==> Now() == Added(old(Now()), d, k, i, Dir, name) && Made(t, d, k, i, Dir, name)
      ensures old(Tidy(Now())) && (d == ROOT || Names(old(t), d) > 0) ==> Tidy(Now())
      ensures old(Rooted(Now())) ==> Rooted(Now())
    {
      hide Names, Inv, Tidy, Rooted;
      TableSize(Now());
      r, i, k := AddInode(d, name, Dir, memory);
    }

    /** ramfs_link: another name for the inode of a vnode that the caller holds. */
    method Link(i: nat, d: nat, name: string) returns (r: int, ghost k: nat)
      requires Valid() && HeldDir(d) && i in vnodes && name != "" && '\0' !in name
      requires forall j :: 0 <= j < |t[d].value.entries| ==> t[d].value.entries[j].name != name
      modifies this`t
      ensures Valid() && (r == 0 || r == -ENOSPC)
      ensures r == -ENOSPC <==> forall j :: 0 <= j < |old(t)[d].value.entries| ==> old(t)[d].value.entries[j].name != ""
      ensures r != 0 ==> t == old(t)
      ensures r == 0 ==> FreeSlot(old(t)[d].value.entries, k) && i < |t| && old(t)[i].Some?
      ensures r == 0 ==> t == WithLinks(WithSlot(old(t), d, k, Dirent(i, Stored(name))), i, 1)
      ensures r == 0 ==> IsDir(t, d) && k < |t[d].value.entries| && t[d].value.entries[k].ino == i
      ensures r == 0 && |name| < NAME_LEN ==> First(t[d].value.entries, name, k)
      ensures r == 0 && old(Tidy(Now())) && (d == ROOT || Names(old(t), d) > 0) ==> Tidy(Now())
      ensures old(Rooted(Now())) && i < |old(t)| && !IsDir(old(t), i) ==> Rooted(Now())
    {
      hide Inv, Names, Tidy, Rooted;
      k := 0;
      HeldExists(Now(), i);
      var slot := FindSlot(d, "");
      if slot.None? {
        return -ENOSPC, 0;
      }
      k := slot.value;
      GoodName(Now(), d, k, i, name);
      LinkInv(Now(), d, k, i, Stored(name));
      if Tidy(Now()) && (d == ROOT || Names(t, d) > 0) { TidyLink(Now(), d, k, i, Stored(name)); }
      if Rooted(Now()) && !IsDir(t, i) { RootedLink(Now(), d, k, i, Stored(name)); }
      t := WithSlot(t, d, slot.value, Dirent(i, Stored(name)));
      t := WithLinks(t, i, 1);
      r := 0;
    }

    /** The end of ramfs_unlink and ramfs_rmdir: the slot is freed, and the vnode held for the inode is put. */
    method RemoveName(d: nat, k: nat)
      requires Valid() && HeldDir(d) && 2 <= k < MAX_DIRENT && k < |t[d].value.entries| && IsName(t[d].value.entries[k])
      requires t[d].value.entries[k].ino in vnodes
      modifies this
      ensures Valid() && Removed(old(Now()), Now(), d, k)
      ensures var i := old(t)[d].value.entries[k].ino;
              old(Tidy(Now())) && !(old(t)[i].Some? && HasNames(old(t)[i].value)) ==> Tidy(Now())
      ensures old(Rooted(Now())) ==> Rooted(Now())
    {
      hide Inv, Names, Tidy, Rooted;
      var e := t[d].value.entries[k];
      HeldExists(Now(), e.ino);
      UnlinkInv(Now(), d, k);
      if Tidy(Now()) && !HasNames(t[e.ino].value) { TidyUnlink(Now(), d, k); }
      if Rooted(Now()) { RootedUnlink(Now(), d, k); }
      t := WithSlot(t, d, k, e.(name := ""));
      t := WithLinks(t, e.ino, -1);
      Vput(e.ino);
    }

    /**
     ramfs_unlink, for a name that is there and stands for something other than a directory: the name goes, and the
     inode with it exactly if that was its only name and nobody holds its vnode.
     */
    method Unlink(d: nat, name: string) returns (r: int, ghost k: nat)
      requires Valid() && HeldDir(d) && name != "" && name != "." && name != ".."
      requires exists j: nat :: First(t[d].value.entries, name, j)
      requires forall j: nat :: First(t[d].value.entries, name, j) && t[d].value.entries[j].ino < |t| ==>
                !IsDir(t, t[d].value.entries[j].ino)
      modifies this
      ensures Valid() && r == 0 && First(old(t)[d].value.entries, name, k)
      ensures old(t)[d].value.entries[k].ino < MAX_FILES && old(t)[old(t)[d].value.entries[k].ino].Some?
      ensures Now() == Unlinked(old(Now()), d, k)
      ensures var i := old(t)[d].value.entries[k].ino;
              t[i].None? <==> Names(old(t), i) == 1 && i !in old(vnodes) && old(orphans)[i] == 0 && i != ROOT
      ensures old(Tidy(Now())) ==> Tidy(Now())
      ensures old(Rooted(Now())) ==> Rooted(Now())
    {
      hide Inv, Names, Rooted, Tidy;
      var slot := FindSlot(d, name);
      k := slot.value;
      ghost var fs := Now();
      var i := t[d].value.entries[slot.value].ino;
      NameFound(fs, d, k, name);
      Vget(i);
      RemoveName(d, slot.value);
      UnlinkedAre(fs, d, k, Now());
      r := 0;
    }

    /** The loop of ramfs_rmdir over the directory to be removed. */
    method IsEmpty(i: nat) returns (empty: bool)
      requires Valid() && IsDir(t, i)
      ensures empty <==> !HasNames(t[i].value)
    {
      assert DirOk(t[i].value, i);
      var j := 0;
      while j < MAX_DIRENT
        invariant 0 <= j <= MAX_DIRENT && forall k :: 0 <= k < j ==> !IsName(t[i].value.entries[k])
      {
        if t[i].value.entries[j].name == "." || t[i].value.entries[j].name == ".." {
          j := j + 1;
          continue;
        }
        if t[i].value.entries[j].name != "" {
          return false;
        }
        j := j + 1;
      }
      return true;
    }

    /** ramfs_rmdir: an empty directory loses its name; otherwise nothing changes and the error says why. */
    method Rmdir(d: nat, name: string) returns (r: int, ghost k: nat)
      requires Valid() && HeldDir(d) && name != "" && name != "." && name != ".."
      modifies this
      ensures Valid()
      ensures r == -ENOENT
         <==> forall j :: 0 <= j < |old(t)[d].value.entries| ==> old(t)[d].value.entries[j].name != name
      ensures r != -ENOENT ==> First(old(t)[d].value.entries, name, k) && old(t)[d].value.entries[k].ino < |old(t)|
      ensures r != -ENOENT ==> old(t)[old(t)[d].value.entries[k].ino].Some?
      ensures r != -ENOENT ==>
        var inode := old(t)[old(t)[d].value.entries[k].ino].value;
        r == if inode.mode != Dir then -ENOTDIR else if HasNames(inode) then -ENOTEMPTY else 0
      ensures r != 0 ==> Now() == old(Now())
      ensures r == 0 ==> Now() == Unlinked(old(Now()), d, k)
      ensures old(Tidy(Now())) ==> Tidy(Now())
      ensures old(Rooted(Now())) ==> Rooted(Now())
    {
      hide Inv, Names, Rooted, Tidy, HasNames;
      k := 0;
      var slot := FindSlot(d, name);
      if slot.None? {
        return -ENOENT, 0;
      }
      k := slot.value;
      ghost var fs := Now();
      var i := t[d].value.entries[slot.value].ino;
      NameFound(fs, d, k, name);
      GotThenPut(fs, i);
      Vget(i);
      if t[i].value.mode != Dir {
        Vput(i);
        return -ENOTDIR, k;
      }
      var empty := IsEmpty(i);
      SameContents(fs, i);
      if !empty {
        Vput(i);
        return -ENOTEMPTY, k;
      }
      NotItself(fs, d, k, name);
      RemoveName(d, slot.value);
      UnlinkedAre(fs, d, k, Now());
      r := 0;
    }
  }

  datatype Found = NotThere | Panicked | Held(ino: nat)

  lemma LookedUp(fs: Fs, d: nat, k: nat, name: string)
    requires Inv(fs) && IsDir(fs.t, d) && k < MAX_DIRENT && First(fs.t[d].value.entries, name, k) && name != ""
    ensures |fs.t| == MAX_FILES && fs.t[d].value.entries[k].ino < MAX_FILES && (name == ".." ==> k == 1)
    ensures name != ".." ==> fs.t[fs.t[d].value.entries[k].ino].Some?
  {
    hide Names, Links;
    assert DirOk(fs.t[d].value, d);
    if IsName(fs.t[d].value.entries[k]) { NoDangling(fs, d, k); }
  }

  /** The slot is free, and the inode has one link less, or is gone with its last. */
  ghost function Unlinked(fs: Fs, d: nat, k: nat): Fs
    requires IsDir(fs.t, d) && k < |fs.t[d].value.entries|
    requires var i := fs.t[d].value.entries[k].ino; i < |fs.t| && fs.t[i].Some?
  {
    var e := fs.t[d].value.entries[k];
    var t1 := WithSlot(fs.t, d, k, e.(name := ""));
    if e.ino !in fs.vnodes && fs.t[e.ino].value.linkcount == 1 then
      fs.(t := t1[e.ino := None], orphans := fs.orphans + InodeNames(fs.t[e.ino]))
    else fs.(t := WithLinks(t1, e.ino, -1))
  }

  lemma UnlinkedAre(fs: Fs, d: nat, k: nat, fs': Fs)
    requires Inv(fs) && IsDir(fs.t, d) && k < |fs.t[d].value.entries| && IsName(fs.t[d].value.entries[k])
    requires var i := fs.t[d].value.entries[k].ino; i < MAX_FILES && fs.t[i].Some? && i != d
    requires var fs1 := Got(fs, fs.t[d].value.entries[k].ino); Removed(fs1, fs', d, k)
    ensures fs' == Unlinked(fs, d, k)
    ensures var i := fs.t[d].value.entries[k].ino;
            fs'.t[i].None? <==> Names(fs.t, i) == 1 && i !in fs.vnodes && fs.orphans[i] == 0 && i != ROOT
  {
    hide Inv, Names;
    var i := fs.t[d].value.entries[k].ino;
    NamedByEntry(fs.t, d, k);
    CountIs(fs, i);
    TableSize(fs);
    if i in fs.vnodes {
      HeldExists(fs, i);
      UnlinkedHeld(fs, d, k, fs');
    } else {
      UnlinkedFree(fs, d, k, fs');
    }
  }

  lemma UnlinkedHeld(fs: Fs, d: nat, k: nat, fs': Fs)
    requires IsDir(fs.t, d) && k < |fs.t[d].value.entries|
    requires var i := fs.t[d].value.entries[k].ino;
             i < |fs.t| && fs.t[i].Some? && i != d && i in fs.vnodes && fs.vnodes[i] > 0
    requires Removed(Got(fs, fs.t[d].value.entries[k].ino), fs', d, k)
    ensures fs' == Unlinked(fs, d, k) && fs'.t[fs.t[d].value.entries[k].ino].Some?
  {
    assert fs'.vnodes == fs.vnodes;
  }

  lemma UnlinkedFree(fs: Fs, d: nat, k: nat, fs': Fs)
    requires IsDir(fs.t, d) && k < |fs.t[d].value.entries|
    requires var i := fs.t[d].value.entries[k].ino; i < |fs.t| && fs.t[i].Some? && i != d && i !in fs.vnodes
    requires Removed(Got(fs, fs.t[d].value.entries[k].ino), fs', d, k)
    ensures fs' == Unlinked(fs, d, k)
    ensures var i := fs.t[d].value.entries[k].ino; fs'.t[i].None? <==> fs.t[i].value.linkcount == 1
  {
    var e := fs.t[d].value.entries[k];
    var t1 := WithSlot(fs.t, d, k, e.(name := ""));
    assert fs'.vnodes == fs.vnodes;
    if fs.t[e.ino].value.linkcount == 1 {
      assert fs'.t == t1[e.ino := None];
    } else {
      assert fs'.t == WithLinks(t1, e.ino, -1);
    }
  }

  lemma GotThenPut(fs: Fs, i: nat)
    requires Inv(fs) && i < MAX_FILES && fs.t[i].Some?
    ensures Got(fs, i).t[i].Some? && i in Got(fs, i).vnodes && Put(Got(fs, i), i) == fs
  {
    hide Names;
    assert fs.t[i].value.linkcount == Links(fs, i) > 0;
    var fs' := Put(Got(fs, i), i);
    assert fs'.vnodes == fs.vnodes;
    assert fs'.t == fs.t;
  }

  /** Getting the vnode does not change what the directory holds. */
  lemma SameContents(fs: Fs, i: nat)
    requires i < |fs.t| && fs.t[i].Some?
    ensures Got(fs, i).t[i].Some? && (HasNames(Got(fs, i).t[i].value) <==> HasNames(fs.t[i].value))
  {
  }

  lemma NameFound(fs: Fs, d: nat, k: nat, name: string)
    requires Inv(fs) && IsDir(fs.t, d) && k < MAX_DIRENT && First(fs.t[d].value.entries, name, k)
    requires name != "" && name != "." && name != ".."
    ensures k >= 2 && IsName(fs.t[d].value.entries[k]) && |fs.t| == MAX_FILES
    ensures fs.t[d].value.entries[k].ino < MAX_FILES && fs.t[fs.t[d].value.entries[k].ino].Some?
  {
    hide Names;
    assert DirOk(fs.t[d].value, d);
    NoDangling(fs, d, k);
  }

  lemma NotItself(fs: Fs, d: nat, k: nat, name: string)
    requires IsDir(fs.t, d) && First(fs.t[d].value.entries, name, k) && IsName(fs.t[d].value.entries[k])
    requires var i := fs.t[d].value.entries[k].ino; i < |fs.t| && fs.t[i].Some? && !HasNames(fs.t[i].value)
    ensures fs.t[d].value.entries[k].ino != d
  {
  }

  /** A name in directory d is gone, and one reference to the inode it stood for. */
  ghost predicate Removed(fs: Fs, fs': Fs, d: nat, k: nat)
    requires IsDir(fs.t, d) && k < |fs.t[d].value.entries|
  {
    var e := fs.t[d].value.entries[k];
    e.ino < |fs.t| && fs.t[e.ino].Some? && e.ino in fs.vnodes &&
    var fs1 := fs.(t := WithLinks(WithSlot(fs.t, d, k, e.(name := "")), e.ino, -1));
    fs' == Put(fs1, e.ino)
  }

  /** vget on a file system. */
  ghost function Got(fs: Fs, i: nat): Fs
    requires i < |fs.t| && fs.t[i].Some?
  {
    if i in fs.vnodes then fs.(vnodes := fs.vnodes[i := fs.vnodes[i] + 1]) else VnodeRead(fs, i)
  }

  /** vput on a file system. */
  ghost function Put(fs: Fs, i: nat): Fs
    requires i in fs.vnodes && i < |fs.t| && fs.t[i].Some?
  {
    if fs.vnodes[i] > 1 then fs.(vnodes := fs.vnodes[i := fs.vnodes[i] - 1]) else VnodeDeleted(fs, i)
  }

  lemma TidyPut(fs: Fs, i: nat)
    requires Inv(fs) && Tidy(fs) && i in fs.vnodes
    ensures i < |fs.t| && fs.t[i].Some? && Tidy(Put(fs, i))
  {
    if fs.vnodes[i] == 1 { TidyDeleted(fs, i); }
  }

  lemma MountedInv(t: Table, root: Inode)
    requires |t| == MAX_FILES && t[ROOT] == Some(root) && root.mode == Dir && Blank(root.(linkcount := 1), ROOT)
    requires root.linkcount == 2
    requires forall i :: 1 <= i < MAX_FILES ==> t[i].None?
    requires root.entries[1].ino == ROOT
    ensures Inv(Fs(t, map[ROOT := 1], multiset{})) && Rooted(Fs(t, map[ROOT := 1], multiset{}))
  {
    var fs := Fs(t, map[ROOT := 1], multiset{});
    forall j: nat ensures Names(t, j) == 0 {
      NoNamesAnywhere(t, j);
    }
  }

  lemma {:induction false} NoNamesAnywhere(t: Table, j: nat)
    requires forall i :: 0 <= i < |t| && t[i].Some? && t[i].value.mode == Dir ==>
               forall k :: 0 <= k < |t[i].value.entries| ==> !IsName(t[i].value.entries[k])
    ensures Names(t, j) == 0
  {
    if t != [] {
      NoNamesAnywhere(t[..|t| - 1], j);
      var o := t[|t| - 1];
      if o.Some? && o.value.mode == Dir { NoNames(o.value.entries, j); }
    }
  }

  lemma MoreReferences(fs: Fs, i: nat, n: nat)
    requires Inv(fs) && i in fs.vnodes && n > 0
    ensures Inv(fs.(vnodes := fs.vnodes[i := n]))
  {
    hide Names;
    var fs' := fs.(vnodes := fs.vnodes[i := n]);
    forall j: nat ensures Links(fs', j) == Links(fs, j) { }
  }

  lemma TableSize(fs: Fs)
    requires Inv(fs)
    ensures |fs.t| == MAX_FILES
  {
  }

  lemma HeldExists(fs: Fs, i: nat)
    requires Inv(fs) && i in fs.vnodes
    ensures |fs.t| == MAX_FILES && i < MAX_FILES && fs.t[i].Some? && fs.vnodes[i] > 0
  {
  }

  lemma NotHeld(fs: Fs, i: nat)
    requires Inv(fs) && i < |fs.t| && fs.t[i].None?
    ensures i !in fs.vnodes
  {
  }

  /** What is stored is a name like others: "." and ".." are in the directory already, in the first slots. */
  lemma GoodName(fs: Fs, d: nat, k: nat, i: nat, name: string)
    requires Inv(fs) && IsDir(fs.t, d) && k < MAX_DIRENT && FreeSlot(fs.t[d].value.entries, k) && name != ""
    requires forall j :: 0 <= j < |fs.t[d].value.entries| ==> fs.t[d].value.entries[j].name != name
    ensures k >= 2 && IsName(Dirent(i, Stored(name)))
  {
    assert DirOk(fs.t[d].value, d);
    assert fs.t[d].value.entries[0].name != name && fs.t[d].value.entries[1].name != name;
  }

  lemma CountIs(fs: Fs, i: nat)
    requires Inv(fs) && i < MAX_FILES && fs.t[i].Some?
    ensures fs.t[i].value.linkcount == Names(fs.t, i) + fs.orphans[i] + One(i == ROOT) + One(i in fs.vnodes)
  {
  }

  /** A directory is made in an empty file system, and its vnode held. */
  lemma OthersNamed(fs: Fs, d: nat, k: nat, i: nat, name: string)
    requires IsDir(fs.t, d) && FreeSlot(fs.t[d].value.entries, k) && i < |fs.t| && fs.t[i].None?
    ensures var fs' := VnodeRead(Added(fs, d, k, i, Data, name), i);
            var es := fs'.t[d].value.entries;
            && IsDir(fs'.t, d) && (d in fs.vnodes ==> d in fs'.vnodes) && |es| == |fs.t[d].value.entries|
            && forall j :: 0 <= j < |es| && j != k ==> es[j] == fs.t[d].value.entries[j]
  {
  }

  /** A file just created is found under its name, exactly if the name is short enough to be kept whole. */
  method FoundAgain(m: MemoryFs, d: nat, name: string, memory: bool) returns (r: int, vn: nat, found: Found)
    requires m.Valid() && m.HeldDir(d) && name != "" && '\0' !in name
    requires forall j :: 0 <= j < |m.t[d].value.entries| ==> m.t[d].value.entries[j].name != name
    modifies m
    ensures m.Valid() && (r == 0 ==> found == if |name| < NAME_LEN then Held(vn) else NotThere)
  {
    hide Inv, Names, Tidy, Rooted, Added, VnodeRead;
    ghost var k, j;
    ghost var fs := m.Now();
    TableSize(fs);
    r, vn, k := m.Create(d, name, memory);
    found := NotThere;
    if r == 0 {
      OthersNamed(fs, d, k, vn, name);
      found, j := m.Lookup(d, name);
    }
  }

  method MadeAndHeld() returns (m: MemoryFs, d: nat, ghost k: nat)
    ensures fresh(m) && m.Valid() && m.HeldDir(ROOT) && m.HeldDir(d) && d != ROOT && m.vnodes[d] == 1
    ensures m.orphans == multiset{}
    ensures m.t[d].value == NewInode(Dir, d, ROOT).(linkcount := 2) && m.t[if d == 1 then 2 else 1].None?
    ensures k < |m.t[ROOT].value.entries| && m.t[ROOT].value.entries[k] == Dirent(d, "d")
    ensures forall j :: 0 <= j < |m.t[ROOT].value.entries| && j != k ==> m.t[ROOT].value.entries[j].name != "d"
  {
    hide Inv, Names, Tidy;
    m := new MemoryFs();
    TableSize(m.Now());
    assert m.t[ROOT].value.entries[2].name == "" && m.t[1].None?;
    var r;
    r, d, k := m.Mkdir(ROOT, "d", true);
    m.Vget(d);
    TableSize(m.Now());
  }

  /** Then it is removed. */
  method RemovedButHeld() returns (m: MemoryFs, d: nat)
    ensures fresh(m) && m.Valid() && m.HeldDir(d) && d != ROOT && m.vnodes[d] == 1 && m.orphans == multiset{}
    ensures m.t[d].value == NewInode(Dir, d, ROOT) && exists i :: 0 <= i < |m.t| && m.t[i].None?
  {
    hide Inv, Names, Tidy;
    ghost var k;
    m, d, k := MadeAndHeld();
    TableSize(m.Now());
    assert !HasNames(m.t[d].value);
    var r;
    r, k := m.Rmdir(ROOT, "d");
    TableSize(m.Now());
    assert m.t[if d == 1 then 2 else 1].None?;
  }

  /**
   A run in which a link count is wrong at the end: a file is made in a directory that has been removed and is still
   held, and goes on existing when the directory is gone, with a link and without a name.
   */
  method LostFile() returns (m: MemoryFs, f: nat)
    ensures fresh(m) && m.Valid() && m.orphans != multiset{}
    ensures f < |m.t| && m.t[f].Some? && m.t[f].value.linkcount == 1 && Names(m.t, f) == 0 && f != ROOT
    ensures f !in m.vnodes
  {
    hide Inv, Names, Tidy, InodeNames;
    var d;
    m, d := RemovedButHeld();
    TableSize(m.Now());
    assert m.t[d].value.entries[2].name == "";
    var r;
    ghost var k;
    r, f, k := m.Create(d, "f", true);
    m.Vput(f);
    CountIs(m.Now(), d);
    ghost var es := m.t[d].value.entries;
    assert es[k] == Dirent(f, "f");
    LostInside(m.t[d], k);
    m.Vput(d);
    CountIs(m.Now(), f);
  }

  lemma LostInside(o: Option<Inode>, k: nat)
    requires o.Some? && o.value.mode == Dir && k < |o.value.entries| && IsName(o.value.entries[k])
    ensures InodeNames(o)[o.value.entries[k].ino] > 0
  {
    NamesAreCounted(o.value.entries, o.value.entries[k].ino);
    CountedInDir(o.value.entries, k);
  }

  /** The directory made first is still there, under its name. */
  ghost predicate Outer(m: MemoryFs, d: nat, k: nat)
    reads m
  {
    && m.Valid() && m.HeldDir(ROOT) && m.HeldDir(d) && d != ROOT && m.vnodes[d] == 1 && m.t[d].value.linkcount == 2
    && k < |m.t[ROOT].value.entries| && m.t[ROOT].value.entries[k] == Dirent(d, "d")
    && (forall j :: 0 <= j < |m.t[ROOT].value.entries| && j != k ==> m.t[ROOT].value.entries[j].name != "d")
  }

  /** In it another one is made, and held. */
  method InnerMade() returns (m: MemoryFs, d: nat, b: nat, ghost k: nat, ghost j: nat)
    ensures fresh(m) && Outer(m, d, k) && m.HeldDir(b) && b != ROOT && b != d
    ensures m.t[b].value.entries == NewInode(Dir, b, d).entries
    ensures j < |m.t[d].value.entries| && m.t[d].value.entries[j] == Dirent(b, "b")
    ensures forall x :: 0 <= x < |m.t[d].value.entries| && x != j ==> m.t[d].value.entries[x].name in {"", ".", ".."}
  {
    hide Inv, Names, Tidy, Rooted, NewInode;
    m, d, k := MadeAndHeld();
    TableSize(m.Now());
    NewDir(d, ROOT);
    ghost var root, inner := m.t[ROOT].value.entries, m.t[d].value.entries;
    assert inner[2].name == "";
    assert m.t[if d == 1 then 2 else 1].None?;
    var r;
    r, b, j := m.Mkdir(d, "b", true);
    NewDir(b, d);
    assert m.t[ROOT].value.entries == root && m.t[d].value.entries == inner[j := Dirent(b, "b")];
    m.Vget(b);
  }

  /** And removed. */
  method InnerRemoved() returns (m: MemoryFs, d: nat, b: nat, ghost k: nat)
    ensures fresh(m) && Outer(m, d, k) && m.HeldDir(b) && b != d && !HasNames(m.t[d].value)
    ensures |m.t[b].value.entries| > 1 && m.t[b].value.entries[0].name == "."
    ensures m.t[b].value.entries[1] == Dirent(d, "..")
  {
    hide Inv, Names, Tidy, Rooted;
    ghost var j;
    m, d, b, k, j := InnerMade();
    TableSize(m.Now());
    assert !HasNames(m.t[b].value);
    ghost var es := m.t[d].value.entries;
    var r;
    ghost var j';
    r, j' := m.Rmdir(d, "b");
    assert j' == j;
    assert m.t[d].value.entries == es[j := Dirent(b, "")];
  }

  /**
   A run that ends in a panic: a directory is made in another, held, and both are removed, the outer one last. Looking
   up ".." in the inner one, the inode is gone.
   */
  method LostParent() returns (m: MemoryFs, b: nat, r: Found)
    ensures fresh(m) && m.Valid() && m.HeldDir(b) && r == Panicked
  {
    hide Inv, Names, Tidy, Rooted;
    var d, x;
    ghost var k;
    m, d, b, k := InnerRemoved();
    TableSize(m.Now());
    ghost var k';
    x, k' := m.Rmdir(ROOT, "d");
    assert k' == k;
    CountIs(m.Now(), d);
    m.Vput(d);
    assert m.t[b].value.entries[1] == Dirent(d, "..");
    r, k := m.Lookup(b, "..");
  }
}
