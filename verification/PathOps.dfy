/** Looking up, creating and opening by path (kernel/src/fs.c). */
module PathOps {
  import opened Options
  import opened Bytes
  import opened BlockDevice
  import opened FsLayout
  import opened FsInvariant
  import opened FileSystem
  import opened Directory
  import opened Tree
  import opened Path

  // ---------------------------------------------------------------- references

  ghost predicate SameSlot(a: Inode, b: Inode) {
    b.ref == a.ref && (a.ref > 0 ==> b.no == a.no && b.del == a.del)
  }

  /** The same inodes are active, with the same reference counts. */
  ghost predicate SameRefs(t0: Table, t1: Table) {
    |t1| == |t0| && forall u :: 0 <= u < |t0| ==> SameSlot(t0[u], t1[u])
  }

  /** As `t0`, with one more reference, to the inode in slot `s`. */
  ghost predicate RefsPlus(t0: Table, t1: Table, s: nat) {
    && |t1| == |t0| && s < |t0|
    && (forall u :: 0 <= u < |t0| && u != s ==> SameSlot(t0[u], t1[u]))
    && t1[s].ref == t0[s].ref + 1
    && (if t0[s].ref > 0 then t1[s].no == t0[s].no && t1[s].del == t0[s].del else !t1[s].del)
  }

  ghost predicate Room(table: Table, n: nat)
    requires n <= 2
  {
    n > 0 ==>
      exists s :: 0 <= s < |table| && table[s].ref == 0 && (n > 1 ==> exists u :: 0 <= u < |table| && u != s && table[u].ref == 0)
  }

  lemma DeadSame(t0: Table, t1: Table)
    requires SameRefs(t0, t1)
    ensures Dead(t1) == Dead(t0)
  {
    forall n | n in Dead(t0)
      ensures n in Dead(t1)
    {
      var s :| 0 <= s < |t0| && t0[s].ref > 0 && t0[s].del && t0[s].no == n;
      assert t1[s].no == n;
    }
  }

  lemma DeadPlus(t0: Table, t1: Table, s: nat)
    requires RefsPlus(t0, t1, s)
    ensures Dead(t1) == Dead(t0)
  {
    forall n | n in Dead(t0)
      ensures n in Dead(t1)
    {
      var u :| 0 <= u < |t0| && t0[u].ref > 0 && t0[u].del && t0[u].no == n;
      assert t1[u].no == n;
    }
  }

  lemma RoomPlus(t0: Table, t1: Table, s: nat)
    requires RefsPlus(t0, t1, s) && Room(t0, 2)
    ensures Room(t1, 1)
  {
    var a :| 0 <= a < |t0| && t0[a].ref == 0 && (exists u :: 0 <= u < |t0| && u != a && t0[u].ref == 0);
    var b :| 0 <= b < |t0| && b != a && t0[b].ref == 0;
    assert t1[a].ref == 0 || t1[b].ref == 0;
  }

  // ---------------------------------------------------------------- creating an inode

  lemma TableFrame(table: Table, disk: Disk, disk2: Disk)
    requires TableOk(table, disk)
    requires forall s :: 0 <= s < INODE_NUM && table[s].ref > 0 ==> DinodeAt(disk2, table[s].no) == DinodeAt(disk, table[s].no)
    ensures TableOk(table, disk2)
  {
    hide DinodeAt;
  }

  lemma NoBlocks(disk: Disk, i: nat)
    requires i < INUM && Sized(disk, i) && DinodeAt(disk, i).typ == TYPE_NONE
    ensures DinodeAt(disk, i).addrs == ZeroDinode.addrs && Shape(disk, i, 0)
  {
    hide DinodeAt, PosBlk;
    DirectPos(disk, i);
    forall k | 0 <= k <= NDIRECT
      ensures DinodeAt(disk, i).addrs[k] == 0
    {
      assert k < NDIRECT ==> DataPos(k) == k;
    }
  }

  /** A free inode marked with a type: a file that is empty. */
  lemma DiallocEffect(table: Table, disk: Disk, t: nat, typ: u32, owner: Owner)
    requires TableOk(table, disk) && Separated(disk, owner) && forall j :: 0 <= j < INUM ==> Sized(disk, j)
    requires 0 < t < INUM && DinodeAt(disk, t).typ == TYPE_NONE && typ != TYPE_NONE
    ensures var disk2 := WriteDinode(disk, t, ZeroDinode.(typ := typ));
      && Separated(disk2, owner) && TableOk(table, disk2)
      && DinodeAt(disk2, t) == ZeroDinode.(typ := typ)
      && (forall j :: 0 <= j < INUM && j != t ==> SameFile(disk, disk2, j))
      && (forall j :: 0 <= j < INUM ==> Sized(disk2, j))
  {
    hide DinodeAt, PosBlk, BitAt, WriteDinode, At, Sized;
    NoBlocks(disk, t);
    var disk2 := HeaderWrite(disk, t, ZeroDinode.(typ := typ), owner);
    assert Shape(disk2, t, 0);
    forall s | 0 <= s < INODE_NUM && table[s].ref > 0
      ensures DinodeAt(disk2, table[s].no) == DinodeAt(disk, table[s].no)
    {
      assert SameFile(disk, disk2, table[s].no);
    }
    TableFrame(table, disk, disk2);
    AllSized(disk, disk2, t);
  }

  lemma SmallWrite(size: nat, off: nat)
    requires off <= size
    ensures WriteCost(size, off, DIRENT) <= 2
    ensures size == 0 ==> WriteCost(0, 0, DIRENT) == 1
    ensures off + DIRENT <= BLK_SIZE && size > 0 && size <= BLK_SIZE ==> WriteCost(size, off, DIRENT) == 0
  {
  }

  /** The `.` and `..` entries of a new directory. */
  method Idirinit(fs: Fs, s: nat, ps: nat, buf: seq<byte>)
    requires fs.Valid() && s < INODE_NUM && ps < INODE_NUM && |buf| == DIRENT - 4
    requires fs.table[s].ref > 0 && fs.table[ps].ref > 0 && s != ps
    requires fs.table[s].dinode.typ == TYPE_DIR && fs.table[ps].dinode.typ == TYPE_DIR
    requires fs.table[s].dinode.size == 0 && |fs.owner| < FREE_BLKS
    modifies fs`owner, fs`table, fs.inodes, fs.dev, fs.dev.sectors, fs.dev.cache
    ensures fs.Valid()
    ensures NewDir(Contents(fs.dev.blocks, old(fs.table[s].no)), old(fs.table[s].no), old(fs.table[ps].no))
    ensures forall j :: 0 <= j < INUM && j != old(fs.table[s].no) ==> SameFile(old(fs.dev.blocks), fs.dev.blocks, j)
    ensures SameHeader(DinodeAt(old(fs.dev.blocks), old(fs.table[s].no)), DinodeAt(fs.dev.blocks, old(fs.table[s].no)))
    ensures fs.table == old(fs.table)[s := fs.table[s]]
    ensures fs.table[s].(dinode := old(fs.table[s].dinode)) == old(fs.table[s])
  {
    hide DinodeAt, PosBlk, SameFile, Separated, Device.Valid, Contents, Sized, CStr, NewDir, WriteCost;
    ghost var disk := fs.dev.blocks;
    ghost var t := fs.table[s].no;
    ghost var d := fs.table[ps].no;
    ghost var c0 := Contents(disk, t);
    ContentsSize(disk, t);
    SmallWrite(0, 0);
    var dirent := Dirent(fs.inodes[s].no, StrCpy(buf, Dot));
    var r := fs.Iwrite(s, 0, dirent);
    ghost var disk1 := fs.dev.blocks;
    ContentsSize(disk1, t);
    SmallWrite(DIRENT, DIRENT);
    var dirent2 := Dirent(fs.inodes[ps].no, StrCpy(dirent[4..], DotDot));
    r := fs.Iwrite(s, DIRENT, dirent2);
    SameFilesTrans(disk, disk1, fs.dev.blocks, t);
    NewDirBytes(t, d, buf, dirent, dirent2, Contents(fs.dev.blocks, t));
  }

  lemma ContentsSize(disk: Disk, i: nat)
    requires i < INUM && Sized(disk, i)
    ensures |Contents(disk, i)| == DinodeAt(disk, i).size <= MAX_SIZE
  {
    hide DinodeAt, Shape;
  }

  lemma NewDirBytes(t: u32, d: u32, buf: seq<byte>, dirent: seq<byte>, dirent2: seq<byte>, c: seq<byte>)
    requires t != 0 && d != 0 && |buf| == DIRENT - 4
    requires dirent == Dirent(t, StrCpy(buf, Dot)) && dirent2 == Dirent(d, StrCpy(dirent[4..], DotDot))
    requires c == Splice(Splice([], 0, dirent), DIRENT, dirent2)
    ensures NewDir(c, t, d)
  {
    hide CStr, GetU32, PutU32;
    assert c[0..DIRENT] == dirent && c[DIRENT..2 * DIRENT] == dirent2;
    DirentParts(t, StrCpy(buf, Dot));
    DirentParts(d, StrCpy(dirent[4..], DotDot));
    CStrOfCopy(buf, Dot);
    CStrOfCopy(dirent[4..], DotDot);
    EntryIsSlice(c, 0);
    EntryIsSlice(c, 1);
  }

  // ---------------------------------------------------------------- lookup

  ghost predicate FoundAt(c: seq<byte>, name: Name, off: nat, ino: nat) {
    off % DIRENT == 0 && BindsAt(c, off / DIRENT, name) && ino == EntIno(c, off / DIRENT)
  }

  /** `name` is not bound, and a new entry can go at `off`. */
  ghost predicate FreeAt(c: seq<byte>, name: Name, off: nat) {
    && (forall j :: 0 <= j < Len(c) ==> !BindsAt(c, j, name))
    && off % DIRENT == 0 && off <= |c| && (off / DIRENT < Len(c) ==> EntIno(c, off / DIRENT) == 0)
  }

  /** The scan of ilookup: the entry that binds `name`, or the offset where a new one goes. */
  method FindEntry(fs: Fs, parent: nat, name: Name) returns (found: bool, off: nat, ino: u32, empty: nat,
          dirent: seq<byte>)
    requires fs.Valid() && parent < INODE_NUM && fs.table[parent].ref > 0
    requires WellDir(Contents(fs.dev.blocks, fs.table[parent].no))
    modifies fs`owner, fs`table, fs.inodes, fs.dev, fs.dev.sectors, fs.dev.cache
    ensures fs.Valid() && fs.dev.blocks == old(fs.dev.blocks) && fs.table == old(fs.table) && fs.owner == old(fs.owner)
    ensures |dirent| == DIRENT
    ensures var c := Contents(fs.dev.blocks, fs.table[parent].no);
      if found then FoundAt(c, name, off, ino) else FreeAt(c, name, empty)
  {
    hide DinodeAt, PosBlk, SameFile, Separated, Device.Valid, Contents, Sized, CStr, EntIno, EntName, GetU32, TableOk;
    ghost var disk := fs.dev.blocks;
    ghost var i := fs.table[parent].no;
    SlotFacts(fs.table, disk, parent);
    ghost var c := Contents(disk, i);
    ContentsSize(disk, i);
    found, ino := false, 0;
    dirent := seq(DIRENT, _ => 0);
    var size := fs.inodes[parent].dinode.size;
    empty := size;
    off := 0;
    while off < size
      invariant fs.Valid() && fs.dev.blocks == disk && fs.table == old(fs.table) && fs.owner == old(fs.owner)
      invariant |dirent| == DIRENT && off % DIRENT == 0 && off <= size
      invariant forall j :: 0 <= j < off / DIRENT ==> !BindsAt(c, j, name)
      invariant empty % DIRENT == 0 && empty <= size && (empty < size ==> EntIno(c, empty / DIRENT) == 0)
      decreases size - off
    {
      var r;
      r, dirent := fs.Iread(parent, off, DIRENT);
      EntryIsSlice(c, off / DIRENT);
      if GetU32(dirent, 0) == 0 {
        if empty == size {
          empty := off;
        }
      } else if CStr(dirent[4..]) == name {
        found, ino := true, GetU32(dirent, 0);
        return;
      }
      off := off + DIRENT;
    }
  }

  lemma SlotFacts(table: Table, disk: Disk, s: nat)
    requires TableOk(table, disk) && s < INODE_NUM && table[s].ref > 0
    ensures 0 < table[s].no < INUM && table[s].dinode == DinodeAt(disk, table[s].no) && table[s].dinode.typ != TYPE_NONE
    ensures forall u :: 0 <= u < INODE_NUM && u != s && table[u].ref > 0 ==> table[u].no != table[s].no
  {
    hide DinodeAt;
  }

  /** The entry written, by its bytes, is the binding created. */
  lemma EntryCreated(c: seq<byte>, off: nat, t: u32, name: Name, dirent: seq<byte>)
    requires WellDir(c) && FreeAt(c, name, off) && t != 0 && IsName(name) && |dirent| == DIRENT
    ensures var k := off / DIRENT;
      var c2 := Splice(c, off, Dirent(t, StrCpy(dirent[4..], name)));
      && WellDir(c2) && DirMap(c2) == DirMap(c)[name := t] && k <= Len(c)
      && Len(c2) == (if k == Len(c) then Len(c) + 1 else Len(c))
      && EntIno(c2, k) == t && EntName(c2, k) == name
      && (forall j :: 0 <= j < Len(c2) && j != k ==> EntIno(c2, j) == EntIno(c, j) && EntName(c2, j) == EntName(c, j))
  {
    hide CStr, GetU32, PutU32, EntIno, EntName, Splice, DirMap;
    var k := off / DIRENT;
    var ent := Dirent(t, StrCpy(dirent[4..], name));
    DirentParts(t, StrCpy(dirent[4..], name));
    CStrOfCopy(dirent[4..], name);
    LookupIsMap(c, k, name);
    BindAdds(c, k, ent, t, name);
    SpliceLen(c, k, ent);
    forall j | 0 <= j < Len(Splice(c, off, ent))
      ensures j == k || j < Len(c)
      ensures EntIno(Splice(c, off, ent), j) == if j == k then t else EntIno(c, j)
      ensures EntName(Splice(c, off, ent), j) == if j == k then name else EntName(c, j)
    {
      EntriesAfterWrite(c, k, ent, j);
    }
  }

  /** What an operation that may create a file needs: a free inode, blocks for the entry and for a new directory,
      and a directory file that can grow. */
  ghost predicate CanCreate(disk: Disk, owner: Owner) {
    && (exists i :: 0 < i < INUM && DinodeAt(disk, i).typ == TYPE_NONE)
    && |owner| + 3 <= FREE_BLKS
    && forall d :: 0 <= d < INUM && DinodeAt(disk, d).typ == TYPE_DIR ==> DinodeAt(disk, d).size + DIRENT <= MAX_SIZE
  }

  /** dialloc, as a file: the inode found becomes an empty file of the given type. */
  method NewInode(fs: Fs, typ: u32) returns (t: nat)
    requires fs.Valid() && typ != TYPE_NONE
    requires exists i :: 0 < i < INUM && DinodeAt(fs.dev.blocks, i).typ == TYPE_NONE
    modifies fs.dev, fs.dev.sectors, fs.dev.cache
    ensures fs.Valid() && 0 < t < INUM
    ensures DinodeAt(old(fs.dev.blocks), t).typ == TYPE_NONE
    ensures DinodeAt(fs.dev.blocks, t) == ZeroDinode.(typ := typ)
    ensures forall j :: 0 <= j < INUM && j != t ==> SameFile(old(fs.dev.blocks), fs.dev.blocks, j)
  {
    hide DinodeAt, PosBlk, SameFile, Separated, Device.Valid, Contents, Sized, WriteDinode, TableOk;
    ghost var disk := fs.dev.blocks;
    t := fs.Dialloc(typ);
    DiallocEffect(fs.table, disk, t, typ, fs.owner);
  }

  /** Allocating `t`, writing its entry in `d`, and filling it: together they create it. */
  lemma CreatedSteps(disk: Disk, disk1: Disk, disk2: Disk, disk3: Disk, d: nat, off: nat, name: Name, t: nat,
          typ: u32, dirent: seq<byte>)
    requires forall j :: 0 <= j < INUM ==> Sized(disk, j) && Sized(disk1, j) && Sized(disk2, j) && Sized(disk3, j)
    requires d < INUM && 0 < t < INUM && d != t && IsName(name) && |dirent| == DIRENT
    requires WellDir(Contents(disk, d)) && FreeAt(Contents(disk, d), name, off)
    requires DinodeAt(disk, t).typ == TYPE_NONE && DinodeAt(disk1, t) == ZeroDinode.(typ := typ)
    requires forall j :: 0 <= j < INUM && j != t ==> SameFile(disk, disk1, j)
    requires forall j :: 0 <= j < INUM && j != d ==> SameFile(disk1, disk2, j)
    requires SameHeader(DinodeAt(disk1, d), DinodeAt(disk2, d))
    requires Contents(disk2, d) == Splice(Contents(disk1, d), off, Dirent(t, StrCpy(dirent[4..], name)))
    requires forall j :: 0 <= j < INUM && j != t ==> SameFile(disk2, disk3, j)
    requires SameHeader(DinodeAt(disk2, t), DinodeAt(disk3, t))
    requires if typ == TYPE_DIR then NewDir(Contents(disk3, t), t, d) else disk3 == disk2
    ensures Created(disk, disk3, d, off / DIRENT, name, t, typ)
    ensures Bound(Contents(disk, d), Contents(disk3, d), name, t)
  {
    hide DinodeAt, PosBlk, Contents, Sized, CStr, GetU32, EntIno, EntName, Splice, DirMap, WellDir, NewDir, At;
    SameFileSame(disk, disk1, d);
    SameFileSame(disk2, disk3, d);
    assert SameFile(disk1, disk2, t);
    EntryCreated(Contents(disk, d), off, t, name, dirent);
    forall j | 0 <= j < INUM && j != d && j != t
      ensures SameFile(disk, disk3, j)
    {
      SameFileTrans(disk, disk1, disk2, j);
      SameFileTrans(disk, disk2, disk3, j);
    }
  }

  ghost predicate Bound(c: seq<byte>, c2: seq<byte>, name: Name, t: nat) {
    t < 0x1_0000_0000 && WellDir(c) && WellDir(c2) && DirMap(c2) == DirMap(c)[name := t as u32]
  }

  lemma NoSlotYet(table: Table, disk: Disk, t: nat)
    requires TableOk(table, disk) && 0 < t < INUM && DinodeAt(disk, t).typ == TYPE_NONE
    ensures forall s :: 0 <= s < INODE_NUM && table[s].ref > 0 ==> table[s].no != t
    ensures t !in Dead(table)
  {
    hide DinodeAt;
  }

  /** The second half of ilookup: a fresh inode, its entry in the parent, and its slot. */
  method CreateEntry(fs: Fs, parent: nat, name: Name, typ: u32, empty: nat, dirent0: seq<byte>) returns (s: nat)
    requires fs.Valid() && parent < INODE_NUM && fs.table[parent].ref > 0 && fs.table[parent].dinode.typ == TYPE_DIR
    requires IsName(name) && typ != TYPE_NONE && |dirent0| == DIRENT
    requires WellDir(Contents(fs.dev.blocks, fs.table[parent].no))
    requires FreeAt(Contents(fs.dev.blocks, fs.table[parent].no), name, empty)
    requires Room(fs.table, 1) && CanCreate(fs.dev.blocks, fs.owner)
    modifies fs`owner, fs`table, fs.inodes, fs.dev, fs.dev.sectors, fs.dev.cache
    ensures fs.Valid()
    ensures s < INODE_NUM && 0 < fs.table[s].no < INUM && old(fs.table[parent].no) < INUM
    ensures RefsPlus(old(fs.table), fs.table, s)
    ensures Created(old(fs.dev.blocks), fs.dev.blocks, old(fs.table[parent].no), empty / DIRENT, name, fs.table[s].no, typ)
    ensures Bound(Contents(old(fs.dev.blocks), old(fs.table[parent].no)),
                  Contents(fs.dev.blocks, old(fs.table[parent].no)), name, fs.table[s].no)
  {
    hide DinodeAt, PosBlk, SameFile, Separated, Device.Valid, Contents, Sized, WellDir, WriteCost, TableOk, NewDir,
      Splice, CStr, FreeAt, Created, Bound;
    ghost var disk := fs.dev.blocks;
    ghost var table := fs.table;
    ghost var d := fs.table[parent].no;
    SlotFacts(table, disk, parent);
    ContentsSize(disk, d);
    assert empty <= |Contents(disk, d)| && empty % DIRENT == 0 by { FreeAtBound(Contents(disk, d), name, empty); }
    var t := NewInode(fs, typ);
    ghost var disk1 := fs.dev.blocks;
    NoSlotYet(table, disk, t);
    SameFileSame(disk, disk1, d);
    SlotFacts(table, disk1, parent);
    SmallWrite(fs.table[parent].dinode.size, empty);
    var dirent := Dirent(t, StrCpy(dirent0[4..], name));
    var r := fs.Iwrite(parent, empty, dirent);
    ghost var disk2 := fs.dev.blocks;
    SameDinode(disk1, disk2, t);
    ghost var free :| 0 <= free < INODE_NUM && table[free].ref == 0;
    assert fs.table[free].ref == 0;
    s := fs.Iget(t);
    SameFilesRefl(disk2, t);
    if typ == TYPE_DIR {
      Idirinit(fs, s, parent, dirent[4..]);
    }
    CreatedSteps(disk, disk1, disk2, fs.dev.blocks, d, empty, name, t, typ, dirent0);
  }

  lemma FreeAtBound(c: seq<byte>, name: Name, off: nat)
    requires FreeAt(c, name, off)
    ensures off <= |c| && off % DIRENT == 0
  {
  }

  lemma SameDinode(disk: Disk, disk2: Disk, i: nat)
    requires i < INUM && SameFile(disk, disk2, i)
    ensures DinodeAt(disk2, i) == DinodeAt(disk, i)
  {
    hide DinodeAt, PosBlk;
  }

  // Everything the operations on paths change.
  datatype FsState = FsState(disk: Disk, owner: Owner, table: Table, links: Links)

  ghost function State(fs: Fs, links: Links): FsState
    reads fs, fs.dev
  {
    FsState(fs.dev.blocks, fs.owner, fs.table, links)
  }

  /** The bytes on disk, their owners and the links are the same. */
  ghost predicate SameDisk(a: FsState, b: FsState) {
    b.disk == a.disk && b.owner == a.owner && b.links == a.links
  }

  /** Inode `no` is open once more than before, in slot `s`. */
  ghost predicate OpenedAt(a: FsState, b: FsState, s: nat, no: nat) {
    RefsPlus(a.table, b.table, s) && b.table[s].no == no
  }

  /** The outcome of looking up `name`, or creating it, in directory `d`. */
  ghost predicate LookedUp(a: FsState, b: FsState, d: nat, name: Name, typ: u32, s: Option<nat>, off: nat)
  {
    && d < INUM && WellDir(Contents(a.disk, d))
    && var c := Contents(a.disk, d);
    if name in DirMap(c) then
      && s.Some? && OpenedAt(a, b, s.value, DirMap(c)[name]) && FoundAt(c, name, off, DirMap(c)[name]) && SameDisk(a, b)
    else if typ == TYPE_NONE then
      s.None? && b == a
    else
      && s.Some? && RefsPlus(a.table, b.table, s.value) && b.table[s.value].no < INUM
      && var t := b.table[s.value].no;
      Made(a, b, d, name, t, typ, off)
  }

  /** Inode `t`, free before, is a new file bound to `name` in directory `d`. */
  ghost predicate Made(a: FsState, b: FsState, d: nat, name: Name, t: nat, typ: u32, off: nat)
    requires d < INUM && t < INUM
  {
    && Created(a.disk, b.disk, d, off / DIRENT, name, t, typ)
    && Bound(Contents(a.disk, d), Contents(b.disk, d), name, t)
    && b.links == a.links[t := (d, off / DIRENT)]
  }

  /** The inode bound to `name` in the directory, opened; created with type `typ` if it is not bound. */
  method Ilookup(fs: Fs, parent: nat, name: Name, typ: u32, ghost links: Links)
    returns (s: Option<nat>, off: nat, ghost links': Links)
    requires fs.Valid() && TreeOk(fs.dev.blocks, Dead(fs.table), links)
    requires parent < INODE_NUM && fs.table[parent].ref > 0
    requires LiveDir(fs.dev.blocks, Dead(fs.table), fs.table[parent].no)
    requires IsName(name) && Room(fs.table, 1)
    requires typ != TYPE_NONE ==> CanCreate(fs.dev.blocks, fs.owner)
    modifies fs`owner, fs`table, fs.inodes, fs.dev, fs.dev.sectors, fs.dev.cache
    ensures fs.Valid() && TreeOk(fs.dev.blocks, Dead(fs.table), links')
    ensures LookedUp(old(State(fs, links)), State(fs, links'), old(fs.table[parent].no), name, typ, s, off)
  {
    hide DinodeAt, PosBlk, SameFile, Separated, Device.Valid, Contents, Sized, WellDir, TableOk, CStr, Created,
      Bound, FoundAt, EntIno, DirMap;
    ghost var disk := fs.dev.blocks;
    ghost var table := fs.table;
    ghost var dead := Dead(table);
    ghost var d := fs.table[parent].no;
    ghost var c := Contents(disk, d);
    SlotFacts(table, disk, parent);
    assert DirOk(c, d, links);
    links' := links;
    var found, at, ino, empty, dirent := FindEntry(fs, parent, name);
    off := at;
    if found {
      FoundEntry(disk, dead, links, d, name, off, ino);
      ghost var free :| 0 <= free < INODE_NUM && table[free].ref == 0;
      assert fs.table[free].ref == 0;
      var slot := fs.Iget(ino);
      s := Some(slot);
      OpenedPlus(table, fs.table, slot, ino, DinodeAt(disk, ino));
      DeadPlus(table, fs.table, slot);
    } else if typ == TYPE_NONE {
      NotFound(c, name, empty);
      s := None;
    } else {
      NotFound(c, name, empty);
      var slot := CreateEntry(fs, parent, name, typ, empty, dirent);
      s := Some(slot);
      off := empty;
      ghost var t := fs.table[slot].no;
      links' := links[t := (d, empty / DIRENT)];
      DeadPlus(table, fs.table, slot);
      assert DinodeAt(disk, t).typ == TYPE_NONE by { CreatedFresh(disk, fs.dev.blocks, d, empty / DIRENT, name, t, typ); }
      NoSlotYet(table, disk, t);
      BoundWell(c, Contents(fs.dev.blocks, d), name, t);
      CreateKeepsTree(disk, fs.dev.blocks, dead, links, d, empty / DIRENT, name, t, typ);
    }
  }

  lemma CreatedFresh(disk: Disk, disk2: Disk, d: nat, k: nat, name: Name, t: nat, typ: u32)
    requires d < INUM && t < INUM && Created(disk, disk2, d, k, name, t, typ)
    ensures DinodeAt(disk, t).typ == TYPE_NONE
  {
    hide DinodeAt, Contents, SameFile;
  }

  lemma BoundWell(c: seq<byte>, c2: seq<byte>, name: Name, t: nat)
    requires Bound(c, c2, name, t)
    ensures WellDir(c2)
  {
    hide WellDir;
  }

  lemma FoundEntry(disk: Disk, dead: set<nat>, links: Links, d: nat, name: Name, off: nat, ino: nat)
    requires TreeOk(disk, dead, links) && LiveDir(disk, dead, d)
    requires FoundAt(Contents(disk, d), name, off, ino) && WellDir(Contents(disk, d))
    ensures Alive(disk, dead, ino)
    ensures name in DirMap(Contents(disk, d)) && DirMap(Contents(disk, d))[name] == ino
  {
    hide DinodeAt, Contents, EntIno, EntName, DirMap;
    EntryAlive(disk, dead, links, d, off / DIRENT);
    LookupIsMap(Contents(disk, d), off / DIRENT, name);
  }

  lemma NotFound(c: seq<byte>, name: Name, off: nat)
    requires WellDir(c) && FreeAt(c, name, off)
    ensures name !in DirMap(c)
  {
    hide DirMap, EntIno, EntName;
    LookupIsMap(c, 0, name);
  }

  lemma OpenedPlus(table: Table, table2: Table, s: nat, no: nat, d: Dinode)
    requires s < |table| && table2 == Opened(table, s, no, d)
    requires table[s].ref > 0 ==> table[s].no == no
    ensures RefsPlus(table, table2, s)
  {
  }
}
