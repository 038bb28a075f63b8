/** iremove: unlinking a file or an empty directory, with the deletion deferred to the last close. */
module Remove {
  import opened Options
  import opened Bytes
  import opened BlockDevice
  import opened FsLayout
  import opened FsInvariant
  import opened FileSystem
  import opened Directory
  import opened Tree
  import opened Path
  import opened PathOps
  import opened Walk
  import opened Open

  /** Whether a directory has no entry in use after the first two. */
  method Idirempty(fs: Fs, s: nat) returns (empty: bool)
    requires fs.Valid() && s < INODE_NUM && fs.table[s].ref > 0
    requires WellDir(Contents(fs.dev.blocks, fs.table[s].no))
    modifies fs`owner, fs`table, fs.inodes, fs.dev, fs.dev.sectors, fs.dev.cache
    ensures fs.Valid() && fs.dev.blocks == old(fs.dev.blocks) && fs.table == old(fs.table) && fs.owner == old(fs.owner)
    ensures empty <==> EmptyDir(Contents(fs.dev.blocks, fs.table[s].no))
  {
    hide DinodeAt, PosBlk, SameFile, Separated, Device.Valid, Contents, Sized, CStr, EntIno, EntName, GetU32, TableOk;
    fs.Active(s);
    ghost var c := Contents(fs.dev.blocks, fs.table[s].no);
    ContentsSize(fs.dev.blocks, fs.table[s].no);
    var i := 2 * DIRENT;
    while i < fs.inodes[s].dinode.size
      invariant fs.Valid() && fs.dev.blocks == old(fs.dev.blocks) && fs.table == old(fs.table) && fs.owner == old(fs.owner)
      invariant i % DIRENT == 0 && 2 * DIRENT <= i && fs.inodes[s] == fs.table[s]
      invariant forall k :: 2 <= k < i / DIRENT && k < Len(c) ==> EntIno(c, k) == 0
      decreases fs.table[s].dinode.size - i
    {
      var r, dirent := fs.Iread(s, i, DIRENT);
      fs.Active(s);
      EntryIsSlice(c, i / DIRENT);
      if GetU32(dirent, 0) != 0 {
        return false;
      }
      i := i + DIRENT;
    }
    return true;
  }

  lemma OwnerSame(owner: Owner, owner2: Owner, i: nat)
    requires OwnerGrown(owner, owner2, i, 0)
    ensures owner2 == owner
  {
    if b :| b in owner2 && b !in owner {
      SubsetSize(owner.Keys + {b}, owner2.Keys);
    }
  }

  /** The same slots, slot `s` being marked deleted and both `s` and `p` one reference down. */
  ghost predicate ClosedBoth(t0: Table, t1: Table, s: nat, p: nat) {
    && |t1| == |t0| && s < |t0| && p < |t0| && s != p
    && (forall u :: 0 <= u < |t0| && u != s && u != p ==> t1[u] == t0[u])
    && t1[s].no == t0[s].no && t1[s].ref == t0[s].ref - 1 && t1[s].del
    && t1[p].no == t0[p].no && t1[p].ref == t0[p].ref - 1 && t1[p].del == t0[p].del
  }

  /** Entry `off` of directory `d` is cleared; `t` is gone if that was its last reference, else untouched. */
  ghost predicate CutOff(disk: Disk, disk2: Disk, d: nat, off: nat, t: nat, last: bool)
    requires d < INUM && t < INUM
  {
    && Contents(disk2, d) == Splice(Contents(disk, d), off, seq(DIRENT, _ => 0))
    && SameHeader(DinodeAt(disk, d), DinodeAt(disk2, d))
    && (forall j :: 0 <= j < INUM && j != d && j != t ==> SameFile(disk, disk2, j))
    && (if last then DinodeAt(disk2, t) == ZeroDinode else SameFile(disk, disk2, t))
  }

  /** The commit of iremove: mark the inode deleted, clear its entry, close it, close the parent. */
  method Unlink(fs: Fs, parent: nat, s: nat, off: nat)
    requires fs.Valid() && parent < INODE_NUM && s < INODE_NUM && parent != s
    requires fs.table[parent].ref > 0 && fs.table[s].ref > 0 && !Freed(fs.table[parent])
    requires off + DIRENT <= |Contents(fs.dev.blocks, fs.table[parent].no)|
    modifies fs`owner, fs`table, fs.inodes, fs.dev, fs.dev.sectors, fs.dev.cache
    ensures fs.Valid() && ClosedBoth(old(fs.table), fs.table, s, parent)
    ensures old(fs.table[parent].no) < INUM && old(fs.table[s].no) < INUM
    ensures CutOff(old(fs.dev.blocks), fs.dev.blocks, old(fs.table[parent].no), off, old(fs.table[s].no), old(fs.table[s].ref) == 1)
    ensures fs.owner == if old(fs.table[s].ref) == 1 then Without(old(fs.owner), old(fs.table[s].no)) else old(fs.owner)
  {
    hide DinodeAt, PosBlk, SameFile, Separated, Device.Valid, Contents, Sized, Splice, WriteCost, TableOk,
      OwnerGrown, Without;
    ghost var disk, d, t := fs.dev.blocks, fs.table[parent].no, fs.table[s].no;
    ghost var table, owner0 := fs.table, fs.owner;
    fs.Active(parent);
    fs.Active(s);
    TwoSlots(table, disk, s, parent);
    ContentsSize(disk, d);
    fs.inodes[s] := fs.inodes[s].(del := true);
    fs.table := fs.table[s := fs.inodes[s]];
    MarkOk(table, disk, s);
    InPlace(table[parent].dinode.size, off);
    OwnerBound(disk, owner0);
    var dirent := seq(DIRENT, _ => 0 as byte);
    var r := fs.Iwrite(parent, off, dirent);
    OwnerSame(owner0, fs.owner, d);
    ghost var disk1 := fs.dev.blocks;
    SameDinode(disk, disk1, t);
    fs.Iclose(s);
    ghost var disk2 := fs.dev.blocks;
    fs.Iclose(parent);
    CutSteps(disk, disk1, disk2, d, off, t, table[s].ref == 1);
  }

  lemma OwnerBound(disk: Disk, owner: Owner)
    requires Separated(disk, owner)
    ensures |owner| <= FREE_BLKS
  {
    hide PosBlk, BitAt;
    SubsetSize(owner.Keys, Span(DATA_START, BLK_NUM));
  }

  lemma TwoSlots(table: Table, disk: Disk, s: nat, p: nat)
    requires TableOk(table, disk) && s < INODE_NUM && p < INODE_NUM && s != p && table[s].ref > 0 && table[p].ref > 0
    ensures table[s].no != table[p].no
  {
    hide DinodeAt;
  }

  lemma MarkOk(table: Table, disk: Disk, s: nat)
    requires TableOk(table, disk) && s < INODE_NUM
    ensures TableOk(table[s := table[s].(del := true)], disk)
  {
    hide DinodeAt;
  }

  lemma InPlace(size: nat, off: nat)
    requires off + DIRENT <= size
    ensures WriteCost(size, off, DIRENT) == 0
  {
  }

  lemma CutSteps(disk: Disk, disk1: Disk, disk2: Disk, d: nat, off: nat, t: nat, last: bool)
    requires d < INUM && t < INUM && d != t
    requires forall j :: 0 <= j < INUM ==> Sized(disk1, j)
    requires Contents(disk1, d) == Splice(Contents(disk, d), off, seq(DIRENT, _ => 0))
    requires SameHeader(DinodeAt(disk, d), DinodeAt(disk1, d))
    requires forall j :: 0 <= j < INUM && j != d ==> SameFile(disk, disk1, j)
    requires forall j :: 0 <= j < INUM && j != t ==> SameFile(disk1, disk2, j)
    requires if last then DinodeAt(disk2, t) == ZeroDinode else disk2 == disk1
    ensures CutOff(disk, disk2, d, off, t, last)
  {
    hide DinodeAt, PosBlk, Contents, Sized, Splice;
    SameFileSame(disk1, disk2, d);
    forall j | 0 <= j < INUM && j != d && j != t
      ensures SameFile(disk, disk2, j)
    {
      SameFileTrans(disk, disk1, disk2, j);
    }
  }

  // ---------------------------------------------------------------- iremove

  /** `name` can be removed from directory `d`: it is bound, and not to a directory in use. */
  ghost predicate RemovableIn(disk: Disk, d: nat, name: Name)
    requires d < INUM
  {
    && name != Dot && name != DotDot
    && WellDir(Contents(disk, d)) && name in DirMap(Contents(disk, d))
    && DirMap(Contents(disk, d))[name] < INUM
    && RemovableFile(disk, DirMap(Contents(disk, d))[name])
  }

  ghost predicate RemovableFile(disk: Disk, t: nat)
    requires t < INUM
  {
    DinodeAt(disk, t).typ == TYPE_DIR ==> EmptyDir(Contents(disk, t))
  }

  ghost predicate Removable(disk: Disk, start: nat, comps: seq<Name>) {
    && comps != [] && IsDir(disk, ParentFrom(disk, start, comps))
    && RemovableIn(disk, ParentFrom(disk, start, comps).value, comps[|comps| - 1])
  }

  /** Inode `t` is free, and the blocks it owned are no longer owned. */
  ghost predicate FreedFile(disk: Disk, owner: Owner, owner2: Owner, t: nat)
    requires t < INUM
  {
    DinodeAt(disk, t) == ZeroDinode && owner2 == Without(owner, t)
  }

  ghost predicate IsOpen(table: Table, t: nat) {
    exists u :: 0 <= u < |table| && table[u].ref > 0 && table[u].no == t
  }

  ghost predicate MarkedSlot(x: Inode, y: Inode, t: nat) {
    y.ref == x.ref && (x.ref > 0 ==> y.no == x.no && (y.del <==> x.del || x.no == t))
  }

  /** The same references, inode `t` being marked deleted where it is open. */
  ghost predicate MarkedRefs(t0: Table, t1: Table, t: nat) {
    && |t1| == |t0|
    && forall u :: 0 <= u < |t0| ==>
      MarkedSlot(t0[u], t1[u], t)
  }

  /** `name` is unbound from `d`; its inode `t` keeps its bytes if it is open, else it and its blocks are freed. */
  ghost predicate Unlinked(a: FsState, b: FsState, d: nat, name: Name, t: nat)
    requires d < INUM && t < INUM
  {
    && WellDir(Contents(a.disk, d)) && WellDir(Contents(b.disk, d))
    && DirMap(Contents(b.disk, d)) == DirMap(Contents(a.disk, d)) - {name}
    && SameHeader(DinodeAt(a.disk, d), DinodeAt(b.disk, d))
    && (forall j :: 0 <= j < INUM && j != d && j != t ==> SameFile(a.disk, b.disk, j))
    && MarkedRefs(a.table, b.table, t)
    && b.links == a.links - {t}
    && (IsOpen(a.table, t) ==> SameFile(a.disk, b.disk, t) && b.owner == a.owner)
    && (!IsOpen(a.table, t) ==> FreedFile(b.disk, a.owner, b.owner, t))
  }

  ghost predicate RemovedPath(a: FsState, b: FsState, start: nat, comps: seq<Name>, res: int) {
    if Removable(a.disk, start, comps) then res == 0 && UnlinkedName(a, b, ParentFrom(a.disk, start, comps).value, comps[|comps| - 1])
    else res == -1 && SameDisk(a, b) && SameRefs(a.table, b.table)
  }

  ghost predicate UnlinkedName(a: FsState, b: FsState, d: nat, name: Name)
    requires d < INUM && RemovableIn(a.disk, d, name)
  {
    Unlinked(a, b, d, name, DirMap(Contents(a.disk, d))[name])
  }

  // ---------------------------------------------------------------- the exits of iremove

  lemma ParentMissing(a: FsState, b: FsState, start: nat, comps: seq<Name>, name: Name)
    requires SameDisk(a, b) && Arrived(a.table, b.table, a.disk, start, comps, None, name)
    ensures RemovedPath(a, b, start, comps, -1)
  {
    hide DinodeAt, Contents, ParentFrom, SameRefs, RemovableIn;
  }

  lemma BothBack(t0: Table, t1: Table, t2: Table, t3: Table, t4: Table, ip: nat, s: nat)
    requires RefsPlus(t0, t1, ip) && RefsPlus(t1, t2, s)
    requires t2[s].ref > 0 && t3 == t2[s := t2[s].(ref := t2[s].ref - 1)]
    requires t3[ip].ref > 0 && t4 == t3[ip := t3[ip].(ref := t3[ip].ref - 1)]
    ensures SameRefs(t0, t4)
  {
  }

  lemma BothHeld(t0: Table, t1: Table, t2: Table, ip: nat, s: nat)
    requires RefsPlus(t0, t1, ip) && RefsPlus(t1, t2, s)
    ensures t2[s].ref > 0 && !Freed(t2[s])
    ensures s != ip ==> t2[ip].ref > 0 && !Freed(t2[ip])
    ensures var t3 := t2[s := t2[s].(ref := t2[s].ref - 1)];
      t3[ip].ref > 0 && !Freed(t3[ip])
  {
  }

  /** The entry found for a name other than `.` and `..` links the inode it names. */
  lemma FoundLink(disk: Disk, dead: set<nat>, links: Links, d: nat, name: Name, off: nat, t: nat)
    requires TreeOk(disk, dead, links) && LiveDir(disk, dead, d) && WellDir(Contents(disk, d))
    requires FoundAt(Contents(disk, d), name, off, t) && name != Dot && name != DotDot
    ensures off / DIRENT >= 2 && off + DIRENT <= |Contents(disk, d)|
    ensures Alive(disk, dead, t) && (DinodeAt(disk, t).typ == TYPE_DIR ==> WellDir(Contents(disk, t)))
    ensures t in links && links[t] == (d, off / DIRENT)
    ensures RemovableFile(disk, t) ==> t != d
    ensures name in DirMap(Contents(disk, d)) && DirMap(Contents(disk, d))[name] == t
  {
    hide DinodeAt, Contents, EntIno, EntName, DirMap, WellDir;
    var c := Contents(disk, d);
    assert DirOk(c, d, links);
    LinkedEntry(disk, dead, links, d, off / DIRENT);
    LookupIsMap(c, off / DIRENT, name);
    if DinodeAt(disk, t).typ == TYPE_DIR {
      assert DirOk(Contents(disk, t), t, links);
    }
  }

  /** Where the removed inode was open before, and what the deletion marks are after. */
  lemma RemovedRefs(t0: Table, t1: Table, t2: Table, t3: Table, disk: Disk, ip: nat, s: nat, d: nat, t: nat)
    requires RefsPlus(t0, t1, ip) && RefsPlus(t1, t2, s) && ClosedBoth(t2, t3, s, ip) && TableOk(t2, disk)
    requires t2[s].no == t && t2[ip].no == d && d != t
    ensures IsOpen(t0, t) <==> t2[s].ref > 1
    ensures MarkedRefs(t0, t3, t)
    ensures forall i :: i in Dead(t3) <==> i in Dead(t0) || (i == t && t2[s].ref > 1)
  {
    hide DinodeAt;
    forall u | 0 <= u < |t0| && t0[u].ref > 0 && u != s
      ensures t0[u].no != t
    {
      assert t2[u].ref > 0 && t2[u].no == t0[u].no;
    }
    if t2[s].ref > 1 {
      assert t0[s].ref > 0 && t0[s].no == t;
      assert t3[s].no in Dead(t3);
    }
    forall i | i in Dead(t0)
      ensures i in Dead(t3)
    {
      var u :| 0 <= u < |t0| && t0[u].ref > 0 && t0[u].del && t0[u].no == i;
      assert t3[u].ref > 0 && t3[u].del && t3[u].no == i;
    }
    forall i | i in Dead(t3) && i != t
      ensures i in Dead(t0)
    {
      var u :| 0 <= u < |t3| && t3[u].ref > 0 && t3[u].del && t3[u].no == i;
      assert t0[u].ref > 0 && t0[u].del && t0[u].no == i;
    }
    if t in Dead(t3) {
      var u :| 0 <= u < |t3| && t3[u].ref > 0 && t3[u].del && t3[u].no == t;
      assert u == s;
    }
  }

  /** The directory that lost its entry. */
  lemma EntryCleared(c: seq<byte>, off: nat, name: Name, t: nat)
    requires WellDir(c) && FoundAt(c, name, off, t)
    ensures var c2 := Splice(c, off, seq(DIRENT, _ => 0));
      var k := off / DIRENT;
      && WellDir(c2) && DirMap(c2) == DirMap(c) - {name} && k < Len(c) == Len(c2)
      && EntIno(c, k) == t && EntIno(c2, k) == 0
      && (forall j :: 0 <= j < Len(c2) && j != k ==> EntIno(c2, j) == EntIno(c, j) && EntName(c2, j) == EntName(c, j))
  {
    hide CStr, GetU32, EntIno, EntName, Splice, DirMap;
    var k := off / DIRENT;
    var ent: seq<byte> := seq(DIRENT, _ => 0);
    UnbindRemoves(c, k, name);
    SpliceLen(c, k, ent);
    ZeroWord(ent);
    forall j | 0 <= j < Len(c)
      ensures EntIno(Splice(c, off, ent), j) == if j == k then 0 else EntIno(c, j)
      ensures j != k ==> EntName(Splice(c, off, ent), j) == EntName(c, j)
    {
      EntriesAfterWrite(c, k, ent, j);
    }
  }

  /** The tree without the entry, and what the removal comes to for a caller. */
  lemma RemoveDone(a: FsState, e: FsState, links: Links, d: nat, off: nat, name: Name, t: nat)
    requires TreeOk(a.disk, Dead(a.table), links) && forall i :: 0 <= i < INUM ==> Sized(a.disk, i)
    requires a.links == links && e.links == links - {t}
    requires LiveDir(a.disk, Dead(a.table), d) && WellDir(Contents(a.disk, d)) && t < INUM
    requires FoundAt(Contents(a.disk, d), name, off, t) && name != Dot && name != DotDot && RemovableFile(a.disk, t)
    requires CutOff(a.disk, e.disk, d, off, t, !IsOpen(a.table, t))
    requires e.owner == if IsOpen(a.table, t) then a.owner else Without(a.owner, t)
    requires MarkedRefs(a.table, e.table, t)
    requires forall i :: i in Dead(e.table) <==> i in Dead(a.table) || (i == t && IsOpen(a.table, t))
    ensures TreeOk(e.disk, Dead(e.table), links - {t})
    ensures Unlinked(a, e, d, name, t)
  {
    hide DinodeAt, PosBlk, Contents, EntIno, EntName, Sized, SameFile, WellDir, DirMap, Splice, TreeOk, Dead,
      Without, IsOpen, MarkedRefs, EmptyDir;
    FoundLink(a.disk, Dead(a.table), links, d, name, off, t);
    EntryCleared(Contents(a.disk, d), off, name, t);
    if IsOpen(a.table, t) {
      SameDinode(a.disk, e.disk, t);
    }
    assert Removed(a.disk, e.disk, Dead(a.table), Dead(e.table), d, off / DIRENT, t);
    RemoveKeepsTree(a.disk, e.disk, Dead(a.table), Dead(e.table), links, d, off / DIRENT, t);
  }

  /** The outcome of removing `name` from `d`. */
  ghost predicate RemovedFrom(a: FsState, e: FsState, d: nat, name: Name, res: int) {
    && d < INUM
    && if RemovableIn(a.disk, d, name) then res == 0 && UnlinkedName(a, e, d, name)
       else res == -1 && SameDisk(a, e) && SameRefs(a.table, e.table)
  }

  lemma NoVictim(a: FsState, b: FsState, c: FsState, d: nat, name: Name, s: Option<nat>, off: nat)
    requires LookedUp(b, c, d, name, TYPE_NONE, s, off) && SameDisk(a, b)
    ensures d < INUM && SameDisk(b, c)
    ensures s.None? ==> c == b && !RemovableIn(a.disk, d, name)
    ensures s.Some? ==> s.value < |c.table| && RefsPlus(b.table, c.table, s.value)
    ensures s.Some? ==> WellDir(Contents(a.disk, d)) && FoundAt(Contents(a.disk, d), name, off, c.table[s.value].no)
  {
    hide DinodeAt, Contents, WellDir, DirMap, Created, Bound, FoundAt, Made, RemovableFile, SameSlot;
  }

  lemma DirInUse(disk: Disk, d: nat, name: Name, t: nat)
    requires d < INUM && WellDir(Contents(disk, d)) && name in DirMap(Contents(disk, d)) && DirMap(Contents(disk, d))[name] == t
    requires t < INUM
    ensures RemovableIn(disk, d, name) <==> name != Dot && name != DotDot && RemovableFile(disk, t)
  {
    hide DinodeAt, Contents, WellDir, DirMap, RemovableFile;
  }

  /** Everything after the parent is opened: look the name up, check it, unlink it, close both. */
  method RemoveFrom(fs: Fs, parent: nat, name: Name, ghost links: Links, ghost a: FsState) returns (res: int,
          ghost links': Links)
    requires FsOk(fs, links) && IsName(name) && Room(fs.table, 1)
    requires parent < INODE_NUM && RefsPlus(a.table, fs.table, parent) && fs.table[parent].ref > 0
    requires LiveDir(fs.dev.blocks, Dead(fs.table), fs.table[parent].no)
    requires SameDisk(a, State(fs, links)) && Dead(fs.table) == Dead(a.table)
    modifies fs`owner, fs`table, fs.inodes, fs.dev, fs.dev.sectors, fs.dev.cache
    ensures FsOk(fs, links')
    ensures RemovedFrom(a, State(fs, links'), old(fs.table[parent].no), name, res)
  {
    hide DinodeAt, Separated, Device.Valid, Contents, Sized, WellDir, TableOk, DirMap, TreeOk, Dead, RefsPlus,
      SameRefs, FoundAt, RemovableIn, RemovableFile, Unlinked, CutOff, LookedUp, IsName, Room, Freed;
    links' := links;
    ghost var b, d := State(fs, links), fs.table[parent].no;
    ghost var dead := Dead(fs.table);
    if name == Dot || name == DotDot {
      DotStays(a.disk, d, name);
      GiveBack(fs, parent, links, a.table);
      return -1, links';
    }
    var s, off;
    ghost var l1;
    s, off, l1 := Ilookup(fs, parent, name, TYPE_NONE, links);
    ghost var c := State(fs, links);
    NoVictim(a, b, State(fs, l1), d, name, s, off);
    AfterLookup(a.table, b, c, d, name, TYPE_NONE, s, off, parent);
    if s.None? {
      GiveBack(fs, parent, links, a.table);
      return -1, links';
    }
    ghost var t := fs.table[s.value].no;
    FoundLink(a.disk, dead, links, d, name, off, t);
    DirInUse(a.disk, d, name, t);
    BothHeld(a.table, b.table, c.table, parent, s.value);
    ActiveSlot(fs, links, s.value);
    var busy := false;
    if fs.inodes[s.value].dinode.typ == TYPE_DIR {
      var empty := Idirempty(fs, s.value);
      busy := !empty;
    }
    VictimFree(a.disk, t, busy);
    if busy {
      Put(fs, s.value, links);
      ghost var t3 := fs.table;
      Put(fs, parent, links);
      BothBack(a.table, b.table, c.table, t3, fs.table, parent, s.value);
      return -1, links';
    }
    Unlink(fs, parent, s.value, off);
    links' := links - {t};
    RemovedRefs(a.table, b.table, c.table, fs.table, c.disk, parent, s.value, d, t);
    RemoveDone(a, State(fs, links'), links, d, off, name, t);
    res := 0;
  }

  lemma DotStays(disk: Disk, d: nat, name: Name)
    requires d < INUM && (name == Dot || name == DotDot)
    ensures !RemovableIn(disk, d, name)
  {
    hide DinodeAt, Contents, WellDir, DirMap;
  }

  lemma VictimFree(disk: Disk, t: nat, busy: bool)
    requires t < INUM
    requires busy <==> DinodeAt(disk, t).typ == TYPE_DIR && !EmptyDir(Contents(disk, t))
    ensures busy <==> !RemovableFile(disk, t)
  {
    hide DinodeAt, Contents;
  }

  /** Remove the file a path names: 0, or -1 when there is nothing there that can be removed. */
  method Iremove(fs: Fs, path: seq<byte>, cwd: nat, ghost links: Links) returns (res: int, ghost links': Links)
    requires FsOk(fs, links) && IsPath(path)
    requires CwdOk(fs.dev.blocks, fs.table, path, cwd)
    requires Room(fs.table, 2)
    modifies fs`owner, fs`table, fs.inodes, fs.dev, fs.dev.sectors, fs.dev.cache
    ensures FsOk(fs, links')
    ensures RemovedPath(old(State(fs, links)), State(fs, links'), Start(path, CwdNo(old(fs.table), cwd)), Components(path), res)
  {
    hide DinodeAt, Separated, Device.Valid, Contents, Sized, WellDir, TableOk, DirMap, ParentFrom, TreeOk, Dead,
      RefsPlus, SameRefs, Components, RemovedPath, Arrived, FoundAt, RemovableIn, RemovableFile, Unlinked, CutOff,
        LookedUp;
    links' := links;
    ghost var a := State(fs, links);
    ghost var start, comps := Start(path, CwdNo(fs.table, cwd)), Components(path);
    var parent, name := IopenParent(fs, path, cwd, links);
    ghost var b := State(fs, links);
    if parent.None? {
      ParentMissing(a, b, start, comps, name);
      return -1, links';
    }
    ghost var d := fs.table[parent.value].no;
    ParentReady(a, b, Dead(fs.table), links, start, comps, parent.value, name);
    res, links' := RemoveFrom(fs, parent.value, name, links, a);
    FromGoal(a, b, State(fs, links'), start, comps, parent.value, d, name, res);
  }

  lemma FromGoal(a: FsState, b: FsState, e: FsState, start: nat, comps: seq<Name>, ip: nat, d: nat, name: Name,
          res: int)
    requires Arrived(a.table, b.table, a.disk, start, comps, Some(ip), name) && b.table[ip].no == d
    requires RemovedFrom(a, e, d, name, res)
    ensures RemovedPath(a, e, start, comps, res)
  {
    hide DinodeAt, Contents, ParentFrom, SameRefs, RefsPlus, RemovableIn, UnlinkedName;
  }
}
