/** Open files (kernel/src/file.c): what they refer to, and the references they account for. */
module FileTable {
  import opened Options
  import opened Bytes
  import opened BlockDevice
  import opened FsLayout
  import opened FsInvariant
  import opened FileSystem
  import opened Directory
  import opened Tree
  import opened Path
  import opened PathOps
  import opened Walk
  import opened Open
  import opened Remove

  const TOTAL_FILE := 128

  // ---------------------------------------------------------------- changes that the tree does not notice

  /** Writing or emptying an active file that is not a directory. */
  lemma FileChange(table: Table, table2: Table, disk: Disk, disk2: Disk, links: Links, s: nat)
    requires TableOk(table, disk) && s < INODE_NUM && table[s].ref > 0 && table[s].dinode.typ != TYPE_DIR
    requires TreeOk(disk, Dead(table), links) && forall j :: 0 <= j < INUM ==> Sized(disk, j)
    requires forall j :: 0 <= j < INUM && j != table[s].no ==> SameFile(disk, disk2, j)
    requires table[s].no < INUM && DinodeAt(disk2, table[s].no).typ == table[s].dinode.typ
    requires |table2| == |table| && forall u :: 0 <= u < |table| ==> table2[u] == table[u].(dinode := table2[u].dinode)
    ensures TreeOk(disk2, Dead(table2), links) && Dead(table2) == Dead(table)
  {
    hide DinodeAt, Contents, Sized, SameFile, TreeOk;
    var i := table[s].no;
    SlotFacts(table, disk, s);
    SameMarks(table, table2);
    assert Aside(disk, disk2, Dead(table), Dead(table2), i);
    AsideKeepsTree(disk, disk2, Dead(table), Dead(table2), links, i);
  }

  lemma SameMarks(table: Table, table2: Table)
    requires |table2| == |table| && forall u :: 0 <= u < |table| ==> table2[u] == table[u].(dinode := table2[u].dinode)
    ensures Dead(table2) == Dead(table)
  {
    forall n | n in Dead(table)
      ensures n in Dead(table2)
    {
      var u :| 0 <= u < |table| && table[u].ref > 0 && table[u].del && table[u].no == n;
      assert table2[u].no == n && table2[u].ref > 0;
    }
    forall n | n in Dead(table2)
      ensures n in Dead(table)
    {
      var u :| 0 <= u < |table2| && table2[u].ref > 0 && table2[u].del && table2[u].no == n;
      assert table[u].no == n;
    }
  }

  /** The last close of a deleted inode. */
  lemma LastClose(table: Table, table2: Table, disk: Disk, disk2: Disk, links: Links, s: nat)
    requires TableOk(table, disk) && s < INODE_NUM && table[s].ref > 0 && Freed(table[s])
    requires TreeOk(disk, Dead(table), links) && forall j :: 0 <= j < INUM ==> Sized(disk, j)
    requires forall j :: 0 <= j < INUM && j != table[s].no ==> SameFile(disk, disk2, j)
    requires table[s].no < INUM && DinodeAt(disk2, table[s].no) == ZeroDinode
    requires |table2| == |table| && table2 == table[s := table2[s]] && table2[s].ref == 0 && table2[s].no == table[s].no
    ensures TreeOk(disk2, Dead(table2), links) && Dead(table2) == Dead(table) - {table[s].no}
  {
    hide DinodeAt, Contents, Sized, SameFile, TreeOk;
    var i := table[s].no;
    SlotFacts(table, disk, s);
    assert i in Dead(table);
    forall n: nat
      ensures n in Dead(table2) <==> n in Dead(table) && n != i
    {
      if n in Dead(table) && n != i {
        var u :| 0 <= u < |table| && table[u].ref > 0 && table[u].del && table[u].no == n;
        assert table2[u] == table[u];
      }
    }
    assert Aside(disk, disk2, Dead(table), Dead(table2), i);
    AsideKeepsTree(disk, disk2, Dead(table), Dead(table2), links, i);
  }

  // ---------------------------------------------------------------- open files and what they refer to

  datatype File = File(typ: u32, ref: nat, readable: bool, writable: bool, inode: nat, offset: u32, dev: u32)

  /** The file is a disk file open on the inode in slot s. */
  predicate OnSlot(f: File, s: nat) {
    f.ref > 0 && f.typ == TYPE_FILE && f.inode == s
  }

  /** How many open files are open on the inode in slot s. */
  function Users(files: seq<File>, s: nat): nat {
    if files == [] then 0 else (if OnSlot(files[0], s) then 1 else 0) + Users(files[1..], s)
  }

  lemma {:induction false} UsersUpdate(files: seq<File>, f: nat, x: File, s: nat)
    requires f < |files|
    ensures Users(files[f := x], s) ==
      Users(files, s) - (if OnSlot(files[f], s) then 1 else 0) + (if OnSlot(x, s) then 1 else 0)
  {
    if f == 0 {
      assert files[f := x][1..] == files[1..];
    } else {
      UsersUpdate(files[1..], f - 1, x, s);
      assert files[f := x][1..] == files[1..][f - 1 := x];
    }
  }

  lemma {:induction false} UsersAtLeast(files: seq<File>, f: nat, s: nat)
    requires f < |files| && OnSlot(files[f], s)
    ensures Users(files, s) > 0
  {
    if f > 0 {
      UsersAtLeast(files[1..], f - 1, s);
    }
  }

  /** The reference count of every slot is the number of open files on it and of its other holders. */
  ghost predicate Accounted(files: seq<File>, table: Table, others: seq<nat>)
    ensures Accounted(files, table, others) ==> |files| == TOTAL_FILE && |table| == INODE_NUM && |others| == INODE_NUM
  {
    && |files| == TOTAL_FILE && |table| == INODE_NUM && |others| == INODE_NUM
    && forall s :: 0 <= s < INODE_NUM ==> table[s].ref == Users(files, s) + others[s]
  }

  /** A file that can be written is not a directory. */
  ghost predicate FileOk(f: File, table: Table, disk: Disk)
    requires |table| == INODE_NUM
  {
    f.ref > 0 && f.typ == TYPE_FILE ==> f.inode < INODE_NUM && (f.writable ==> NotDir(disk, table[f.inode].no))
  }

  ghost predicate NotDir(disk: Disk, i: nat) {
    i < INUM && DinodeAt(disk, i).typ == TYPE_FILE
  }

  ghost predicate KnownTypes(disk: Disk) {
    forall i :: 0 <= i < INUM ==> DinodeAt(disk, i).typ <= TYPE_DEV
  }

  ghost predicate FilesOk(files: seq<File>, a: FsState, others: seq<nat>)
    ensures FilesOk(files, a, others) ==> |files| == TOTAL_FILE && |a.table| == INODE_NUM && |others| == INODE_NUM
  {
    && Accounted(files, a.table, others) && KnownTypes(a.disk)
    && forall f :: 0 <= f < TOTAL_FILE ==> FileOk(files[f], a.table, a.disk)
  }

  /** What keeps open files in order while the file system changes: no active inode changes its type, or its number. */
  ghost predicate Steady(a: FsState, b: FsState) {
    && |a.table| == |b.table| == INODE_NUM && KnownTypes(b.disk)
    && forall s :: 0 <= s < INODE_NUM && a.table[s].ref > 0 && b.table[s].ref > 0 ==> SteadySlot(a, b, s)
  }

  ghost predicate SteadySlot(a: FsState, b: FsState, s: nat)
    requires s < |a.table| == |b.table|
  {
    b.table[s].no == a.table[s].no && (NotDir(a.disk, a.table[s].no) ==> NotDir(b.disk, b.table[s].no))
  }

  lemma FilesSteady(files: seq<File>, a: FsState, b: FsState, others: seq<nat>, others2: seq<nat>)
    requires FilesOk(files, a, others) && Steady(a, b) && Accounted(files, b.table, others2)
    ensures FilesOk(files, b, others2)
  {
    hide NotDir;
    forall f | 0 <= f < TOTAL_FILE
      ensures FileOk(files[f], b.table, b.disk)
    {
      assert FileOk(files[f], a.table, a.disk);
      if files[f].ref > 0 && files[f].typ == TYPE_FILE {
        UsersAtLeast(files, f, files[f].inode);
        assert SteadySlot(a, b, files[f].inode);
      }
    }
  }

  /** The reference taken at slot s goes to the file f, which was not in use. */
  lemma FilesTake(files: seq<File>, a: FsState, others: seq<nat>, s: nat, f: nat, x: File)
    requires FilesOk(files, a, others) && s < INODE_NUM && others[s] > 0 && f < TOTAL_FILE && files[f].typ != TYPE_FILE
    requires OnSlot(x, s) && (x.writable ==> NotDir(a.disk, a.table[s].no))
    ensures FilesOk(files[f := x], a, others[s := others[s] - 1])
  {
    hide NotDir;
    forall u | 0 <= u < INODE_NUM
      ensures a.table[u].ref == Users(files[f := x], u) + others[s := others[s] - 1][u]
    {
      UsersUpdate(files, f, x, u);
    }
  }

  /** The file f, in use no longer, leaves its reference to slot s to its closer. */
  lemma FilesLeave(files: seq<File>, a: FsState, others: seq<nat>, s: nat, f: nat, x: File)
    requires FilesOk(files, a, others) && s < INODE_NUM && f < TOTAL_FILE && OnSlot(files[f], s) && x.ref == 0
    ensures FilesOk(files[f := x], a, others[s := others[s] + 1])
  {
    hide NotDir;
    forall u | 0 <= u < INODE_NUM
      ensures a.table[u].ref == Users(files[f := x], u) + others[s := others[s] + 1][u]
    {
      UsersUpdate(files, f, x, u);
    }
  }

  /** A file changes without changing what it refers to. */
  lemma FilesKeep(files: seq<File>, a: FsState, others: seq<nat>, f: nat, x: File)
    requires FilesOk(files, a, others) && f < TOTAL_FILE && FileOk(x, a.table, a.disk)
    requires forall s :: 0 <= s < INODE_NUM ==> (OnSlot(x, s) <==> OnSlot(files[f], s))
    ensures FilesOk(files[f := x], a, others)
  {
    hide NotDir;
    forall u | 0 <= u < INODE_NUM
      ensures Users(files[f := x], u) == Users(files, u)
    {
      UsersUpdate(files, f, x, u);
    }
  }

  lemma {:induction false} ZeroUsers(files: seq<File>, s: nat)
    requires forall f :: 0 <= f < |files| ==> files[f].ref == 0
    ensures Users(files, s) == 0
  {
    if files != [] {
      ZeroUsers(files[1..], s);
    }
  }

  lemma NoUsers(files: seq<File>, a: FsState, others: seq<nat>)
    requires |files| == TOTAL_FILE && |a.table| == |others| == INODE_NUM && KnownTypes(a.disk)
    requires forall f :: 0 <= f < TOTAL_FILE ==> files[f].ref == 0
    requires forall s :: 0 <= s < INODE_NUM ==> others[s] == a.table[s].ref
    ensures FilesOk(files, a, others)
  {
    hide KnownTypes;
    forall s | 0 <= s < INODE_NUM
      ensures Users(files, s) == 0
    {
      ZeroUsers(files, s);
    }
  }

  /** One more, or one fewer, holder of slot s besides the files. */
  lemma HoldMore(files: seq<File>, a: FsState, b: FsState, others: seq<nat>, s: nat)
    requires FilesOk(files, a, others) && RefsPlus(a.table, b.table, s) && Steady(a, b)
    ensures s < INODE_NUM && FilesOk(files, b, others[s := others[s] + 1])
  {
    hide NotDir;
    forall u | 0 <= u < INODE_NUM
      ensures b.table[u].ref == Users(files, u) + others[s := others[s] + 1][u]
    {
      assert u != s ==> SameSlot(a.table[u], b.table[u]);
    }
    FilesSteady(files, a, b, others, others[s := others[s] + 1]);
  }

  lemma HoldSame(files: seq<File>, a: FsState, b: FsState, others: seq<nat>)
    requires FilesOk(files, a, others) && SameRefs(a.table, b.table) && Steady(a, b)
    ensures FilesOk(files, b, others)
  {
    hide NotDir;
    forall u | 0 <= u < INODE_NUM
      ensures b.table[u].ref == a.table[u].ref
    {
      assert SameSlot(a.table[u], b.table[u]);
    }
    FilesSteady(files, a, b, others, others);
  }

  /** A holder besides the files gives its reference to slot s back. */
  lemma HoldLess(files: seq<File>, a: FsState, b: FsState, others: seq<nat>, s: nat)
    requires FilesOk(files, a, others) && s < INODE_NUM && others[s] > 0 && Steady(a, b)
    requires |b.table| == |a.table| && b.table == a.table[s := b.table[s]] && b.table[s].ref == a.table[s].ref - 1
    ensures FilesOk(files, b, others[s := others[s] - 1])
  {
    hide NotDir;
    FilesSteady(files, a, b, others, others[s := others[s] - 1]);
  }

  // ---------------------------------------------------------------- what iopen does to the references

  lemma OpenedRefs(a: FsState, b: FsState, path: seq<byte>, cwd: nat, typ: u32, s: Option<nat>)
    requires OpenedPath(a, b, path, cwd, typ, s)
    ensures if s.Some? then RefsPlus(a.table, b.table, s.value) else SameRefs(a.table, b.table)
  {
    hide DinodeAt, Contents, WellDir, DirMap, ParentFrom, Resolve, Components, Made;
  }

  lemma MadeTypes(a: FsState, b: FsState, d: nat, name: Name, t: nat, typ: u32, off: nat)
    requires d < INUM && t < INUM && Made(a, b, d, name, t, typ, off) && typ <= TYPE_DEV && KnownTypes(a.disk)
    ensures KnownTypes(b.disk)
    ensures forall i :: 0 <= i < INUM && NotDir(a.disk, i) ==> NotDir(b.disk, i)
  {
    hide DinodeAt, Contents, WellDir, DirMap, EntIno, EntName, PosBlk, NewDir;
    forall i | 0 <= i < INUM
      ensures DinodeAt(b.disk, i).typ <= TYPE_DEV && (NotDir(a.disk, i) ==> NotDir(b.disk, i))
    {
      assert i != d && i != t ==> SameFile(a.disk, b.disk, i);
    }
  }

  lemma OpenedSteady(a: FsState, b: FsState, path: seq<byte>, cwd: nat, typ: u32, s: Option<nat>)
    requires OpenedPath(a, b, path, cwd, typ, s) && typ <= TYPE_DEV && KnownTypes(a.disk) && |a.table| == INODE_NUM
    requires forall u :: 0 <= u < INODE_NUM && a.table[u].ref > 0 ==> a.table[u].no < INUM
    ensures Steady(a, b)
  {
    hide DinodeAt, Contents, WellDir, DirMap, ParentFrom, Resolve, Components, Made, KnownTypes, NotDir;
    OpenedRefs(a, b, path, cwd, typ, s);
    if a.disk != b.disk {
      var d := ParentFrom(a.disk, Start(path, cwd), Components(path)).value;
      var name := Components(path)[|Components(path)| - 1];
      var off :| Made(a, b, d, name, b.table[s.value].no, typ, off);
      MadeTypes(a, b, d, name, b.table[s.value].no, typ, off);
    }
    forall u | 0 <= u < INODE_NUM && a.table[u].ref > 0 && b.table[u].ref > 0
      ensures SteadySlot(a, b, u)
    {
      assert s.None? || u != s.value ==> SameSlot(a.table[u], b.table[u]);
    }
  }

  // ---------------------------------------------------------------- the file table

  datatype Mode = Mode(create: bool, dir: bool, wronly: bool, rdwr: bool, trunc: bool)

  function TypeFor(mode: Mode): u32 {
    if !mode.create then TYPE_NONE else if mode.dir then TYPE_DIR else TYPE_FILE
  }

  /** Modes that ask for what an inode of this type does not give. */
  predicate Refused(mode: Mode, typ: u32) {
    && (typ == TYPE_FILE || typ == TYPE_DIR)
    && ((typ != TYPE_DIR && mode.dir) || (typ == TYPE_DIR && (mode.wronly || mode.rdwr || mode.trunc)))
  }

  class FileTable {
    const fs: Fs
    const files: array<File>
    ghost var links: Links
    ghost var others: seq<nat>    // per inode slot, the references that are not files': current directories

    /** At boot no file is open; whatever inodes are active are held otherwise. */
    constructor (fs: Fs, ghost links: Links)
      requires FsOk(fs, links) && KnownTypes(fs.dev.blocks)
      ensures Valid() && this.fs == fs && this.links == links && fresh(files)
      ensures forall s :: 0 <= s < INODE_NUM ==> others[s] == fs.table[s].ref
      ensures forall f :: 0 <= f < TOTAL_FILE ==> files[f].ref == 0
    {
      hide FsOk, KnownTypes;
      this.fs := fs;
      this.links := links;
      files := new File[TOTAL_FILE](_ => File(TYPE_NONE, 0, false, false, 0, 0, 0));
      others := seq<nat>(INODE_NUM, (s: nat) requires s < |fs.table| reads fs => fs.table[s].ref);
      new;
      NoUsers(files[..], Now(), others);
    }

    ghost predicate Valid()
      reads this, files, fs, fs.inodes, fs.dev, fs.dev.sectors, fs.dev.cache
      ensures Valid() ==> files.Length == TOTAL_FILE && |others| == INODE_NUM && |fs.table| == INODE_NUM
    {
      FsOk(fs, links) && files.Length == TOTAL_FILE && FilesOk(files[..], State(fs, links), others)
    }

    ghost function Now(): FsState
      reads this, fs, fs.dev
    {
      State(fs, links)
    }

    /** A slot in use, as the open file or the holder of a directory finds it. */
    lemma SlotInUse(s: nat)
      requires Valid() && s < INODE_NUM && fs.table[s].ref > 0
      ensures fs.inodes.Length == |fs.table| == INODE_NUM && fs.inodes[s] == fs.table[s]
      ensures 0 < fs.table[s].no < INUM && fs.table[s].dinode == DinodeAt(fs.dev.blocks, fs.table[s].no)
      ensures TYPE_NONE < fs.table[s].dinode.typ <= TYPE_DEV
    {
      hide DinodeAt, Separated, Device.Valid, Sized, TreeOk, Accounted;
    }

    lemma NumbersOk()
      requires Valid()
      ensures forall u :: 0 <= u < INODE_NUM && fs.table[u].ref > 0 ==> fs.table[u].no < INUM
    {
      hide DinodeAt, Separated, Device.Valid, Sized, TreeOk, Accounted;
    }

    /** falloc */
    method Falloc() returns (r: Option<nat>)
      requires Valid()
      modifies files
      ensures Valid()
      ensures r.None? ==> files[..] == old(files[..]) && forall f :: 0 <= f < TOTAL_FILE ==> files[f].ref > 0
      ensures r.Some? ==> r.value < TOTAL_FILE && old(files[r.value]).ref == 0
      ensures r.Some? ==> files[..] == old(files[..])[r.value := old(files[r.value]).(ref := 1, typ := TYPE_NONE)]
    {
      hide FsOk, NotDir, Accounted, KnownTypes;
      var i := 0;
      while i < TOTAL_FILE
        invariant 0 <= i <= TOTAL_FILE && files[..] == old(files[..])
        invariant forall f :: 0 <= f < i ==> files[f].ref > 0
      {
        if files[i].ref == 0 {
          var x := files[i].(ref := 1, typ := TYPE_NONE);
          FilesKeep(files[..], Now(), others, i, x);
          files[i] := x;
          return Some(i);
        }
        i := i + 1;
      }
      r := None;
    }

    /** iclose of a reference that was just taken. */
    method PutBack(s: nat, ghost a: FsState)
      requires Valid() && s < INODE_NUM && others[s] > 0 && RefsPlus(a.table, fs.table, s)
      modifies this`others, fs`owner, fs`table, fs.inodes, fs.dev, fs.dev.sectors, fs.dev.cache
      ensures Valid() && others == old(others)[s := old(others)[s] - 1]
      ensures SameDisk(old(Now()), Now()) && SameRefs(a.table, fs.table)
    {
      hide NotDir, Separated, Device.Valid, Sized, TreeOk, DinodeAt, KnownTypes, Fs.Valid;
      ghost var b := Now();
      Put(fs, s, links);
      HoldLess(files[..], b, Now(), others, s);
      others := others[s := others[s] - 1];
      DropRef(a.table, b.table, fs.table, s);
    }

    /** iopen; the reference is the caller's. */
    method Acquire(path: seq<byte>, typ: u32, cwd: nat) returns (s: Option<nat>)
      requires Valid() && IsPath(path) && typ <= TYPE_DEV
      requires CwdOk(fs.dev.blocks, fs.table, path, cwd)
      requires Room(fs.table, 2) && (typ != TYPE_NONE ==> CanCreate(fs.dev.blocks, fs.owner))
      modifies this`others, this`links, fs`owner, fs`table, fs.inodes, fs.dev, fs.dev.sectors, fs.dev.cache
      ensures Valid() && OpenedPath(old(Now()), Now(), path, CwdNo(old(fs.table), cwd), typ, s)
      ensures Dead(fs.table) == Dead(old(fs.table))
      ensures if s.Some? then s.value < INODE_NUM && RefsPlus(old(fs.table), fs.table, s.value) && fs.table[s.value].ref > 0
              else SameRefs(old(fs.table), fs.table)
      ensures others == if s.Some? && s.value < |old(others)| then old(others)[s.value := old(others)[s.value] + 1] else old(others)
    {
      hide NotDir, Separated, Device.Valid, Sized, TreeOk, DinodeAt, KnownTypes, Fs.Valid, OpenedPath, Dead,
        Accounted, FileOk, LiveDir, CanCreate, Room, Steady;
      ghost var a := Now();
      NumbersOk();
      ghost var links2;
      s, links2 := Iopen(fs, path, typ, cwd, links);
      links := links2;
      OpenedRefs(a, Now(), path, CwdNo(a.table, cwd), typ, s);
      OpenedSteady(a, Now(), path, CwdNo(a.table, cwd), typ, s);
      if s.Some? {
        HoldMore(files[..], a, Now(), others, s.value);
        others := others[s.value := others[s.value] + 1];
      } else {
        HoldSame(files[..], a, Now(), others);
      }
    }

    /** itrunc of a file that is not a directory. */
    method Truncate(s: nat)
      requires Valid() && s < INODE_NUM && fs.table[s].ref > 0 && fs.table[s].dinode.typ == TYPE_FILE
      modifies fs`owner, fs`table, fs.inodes, fs.dev, fs.dev.sectors, fs.dev.cache
      ensures Valid() && SameRefs(old(fs.table), fs.table)
      ensures fs.table[s] == old(fs.table[s]).(dinode := fs.table[s].dinode) && fs.table[s].dinode.typ == TYPE_FILE
      ensures Emptied(old(Now()), Now(), old(fs.table[s].no))
    {
      hide NotDir, Separated, Device.Valid, Sized, TreeOk, DinodeAt, Contents, KnownTypes, SameFile, FileOk, Accounted;
      ghost var a := Now();
      SlotInUse(s);
      fs.Itrunc(s);
      FileChange(a.table, fs.table, a.disk, fs.dev.blocks, links, s);
      EmptiedSteady(a, Now(), s);
      HoldSame(files[..], a, Now(), others);
    }

    method SetFile(f: nat, x: File)
      requires Valid() && f < TOTAL_FILE && (x.ref == 0 || x.typ != TYPE_FILE) && files[f].typ != TYPE_FILE
      modifies files
      ensures Valid() && files[..] == old(files[..])[f := x]
    {
      hide FsOk, NotDir, Accounted, KnownTypes;
      FilesKeep(files[..], Now(), others, f, x);
      files[f] := x;
    }

    /** The file f takes over the reference that its opener holds to slot s. */
    method GiveFile(f: nat, x: File, s: nat)
      requires Valid() && f < TOTAL_FILE && files[f].typ != TYPE_FILE && s < INODE_NUM && others[s] > 0 && OnSlot(x, s)
      requires x.writable ==> NotDir(fs.dev.blocks, fs.table[s].no)
      modifies files, this`others
      ensures Valid() && files[..] == old(files[..])[f := x] && others == old(others)[s := old(others)[s] - 1]
    {
      hide FsOk, NotDir, Accounted, KnownTypes;
      FilesTake(files[..], Now(), others, s, f, x);
      files[f] := x;
      others := others[s := others[s] - 1];
    }

    /** fopen after iopen: the checks of the mode, and the file set up or everything given back. */
    method Attach(f: nat, s: nat, mode: Mode, ghost a: FsState, ghost f0: seq<File>) returns (r: Option<nat>)
      requires Valid() && f < TOTAL_FILE && s < INODE_NUM && others[s] > 0 && fs.table[s].ref > 0
      requires RefsPlus(a.table, fs.table, s) && |f0| == TOTAL_FILE && f0[f].ref == 0
      requires files[..] == f0[f := f0[f].(ref := 1, typ := TYPE_NONE)]
      modifies this`others, files, fs`owner, fs`table, fs.inodes, fs.dev, fs.dev.sectors, fs.dev.cache
      ensures Valid() && others == old(others)[s := old(others)[s] - 1]
      ensures Fopened(a, old(Now()), Now(), Some(s), mode, f0, files[..], r)
    {
      hide NotDir, Separated, Device.Valid, Sized, TreeOk, DinodeAt, KnownTypes, Fs.Valid, Accounted, FileOk,
        RefsPlus, SameRefs, SameFile, Contents, FsOk, Emptied, FilesOk;
      ghost var m := Now();
      SlotInUse(s);
      var typ := fs.inodes[s].dinode.typ;
      if Refused(mode, typ) {
        SetFile(f, files[f].(ref := 0));
        PutBack(s, a);
        return None;
      }
      var x := files[f].(readable := !mode.wronly, writable := mode.wronly || mode.rdwr);
      if typ == TYPE_FILE || typ == TYPE_DIR {
        if typ == TYPE_FILE && mode.trunc {
          Truncate(s);
          RefsAfter(a.table, m.table, fs.table, s);
          SlotInUse(s);
        }
        TypeIs(fs.dev.blocks, fs.table[s].no);
        GiveFile(f, x.(typ := TYPE_FILE, inode := s, offset := 0), s);
      } else {
        SetFile(f, x.(typ := TYPE_DEV, dev := fs.inodes[s].dinode.device));
        PutBack(s, a);
      }
      r := Some(f);
    }

    /** fopen. `m` is what is there when iopen is done, with its inode open in slot `s`. */
    method Fopen(path: seq<byte>, mode: Mode, cwd: nat) returns (r: Option<nat>, ghost m: FsState, ghost s: Option<nat>)
      requires Valid() && IsPath(path)
      requires CwdOk(fs.dev.blocks, fs.table, path, cwd)
      requires Room(fs.table, 2) && (mode.create ==> CanCreate(fs.dev.blocks, fs.owner))
      modifies this`others, this`links, files, fs`owner, fs`table, fs.inodes, fs.dev, fs.dev.sectors, fs.dev.cache
      ensures Valid() && others == old(others)
      ensures (forall f :: 0 <= f < TOTAL_FILE ==> old(files[f]).ref > 0) ==>
                r.None? && Now() == old(Now()) && files[..] == old(files[..])
      ensures (exists f :: 0 <= f < TOTAL_FILE && old(files[f]).ref == 0) ==>
                && OpenedPath(old(Now()), m, path, CwdNo(old(fs.table), cwd), TypeFor(mode), s)
                && Fopened(old(Now()), m, Now(), s, mode, old(files[..]), files[..], r)
    {
      hide NotDir, Separated, Device.Valid, Sized, TreeOk, DinodeAt, KnownTypes, Fs.Valid, OpenedPath, Dead,
        Accounted, FileOk, LiveDir, CanCreate, Room, Steady, RefsPlus, SameRefs, SameFile, Contents, FsOk, Emptied,
          FilesOk;
      ghost var a, f0 := Now(), files[..];
      m, s, r := a, None, None;
      var fp := Falloc();
      if fp.Some? {
        var ip := Acquire(path, TypeFor(mode), cwd);
        m, s := Now(), ip;
        if ip.None? {
          SetFile(fp.value, files[fp.value].(ref := 0));
        } else {
          r := Attach(fp.value, ip.value, mode, a, f0);
        }
      }
    }

    /** iclose of a reference that its holder has. */
    method Release(s: nat)
      requires Valid() && s < INODE_NUM && others[s] > 0
      modifies this`others, fs`owner, fs`table, fs.inodes, fs.dev, fs.dev.sectors, fs.dev.cache
      ensures Valid() && others == old(others)[s := old(others)[s] - 1]
      ensures Closed(old(Now()), Now(), s)
    {
      hide NotDir, Separated, Device.Valid, Sized, TreeOk, DinodeAt, KnownTypes, SameFile, Steady;
      ghost var a := Now();
      SlotInUse(s);
      fs.Iclose(s);
      if Freed(a.table[s]) {
        LastClose(a.table, fs.table, a.disk, fs.dev.blocks, links, s);
        GoneSteady(a, Now(), s);
      } else {
        DeadPut(a.table, fs.table, s);
        SameSteady(a, Now(), s);
      }
      HoldLess(files[..], a, Now(), others, s);
      others := others[s := others[s] - 1];
    }

    /** fdup */
    method Fdup(f: nat)
      requires Valid() && f < TOTAL_FILE && files[f].ref > 0
      modifies files
      ensures Valid() && files[..] == old(files[..])[f := old(files[f]).(ref := old(files[f]).ref + 1)]
    {
      hide FsOk, NotDir, Accounted, KnownTypes;
      FilesKeep(files[..], Now(), others, f, files[f].(ref := files[f].ref + 1));
      files[f] := files[f].(ref := files[f].ref + 1);
    }

    /** fclose: the last close of a disk file gives its inode back. */
    method Fclose(f: nat)
      requires Valid() && f < TOTAL_FILE && files[f].ref > 0
      modifies this`others, files, fs`owner, fs`table, fs.inodes, fs.dev, fs.dev.sectors, fs.dev.cache
      ensures Valid() && others == old(others)
      ensures files[..] == old(files[..])[f := old(files[f]).(ref := old(files[f]).ref - 1)]
      ensures var x := old(files[f]);
              if x.ref == 1 && x.typ == TYPE_FILE then Closed(old(Now()), Now(), x.inode) else Now() == old(Now())
    {
      hide FsOk, NotDir, Accounted, KnownTypes, Closed, FilesOk, FileOk;
      ghost var x, f0 := files[f], files[..];
      if files[f].ref == 1 && files[f].typ == TYPE_FILE {
        LastUser(files[..], Now(), others, f);
        files[f] := files[f].(ref := 0);
        assert files[..] == f0[f := x.(ref := 0)];
        others := others[x.inode := others[x.inode] + 1];
        Release(files[f].inode);
      } else {
        OneFewer(files[..], Now(), others, f);
        files[f] := files[f].(ref := files[f].ref - 1);
        assert files[..] == f0[f := x.(ref := x.ref - 1)];
      }
    }

    /** fread; `dev` is what the device would give. */
    method Fread(f: nat, size: u32, dev: seq<byte>) returns (res: int, buf: seq<byte>)
      requires Valid() && f < TOTAL_FILE && files[f].ref > 0
      requires files[f].typ == TYPE_FILE ==> Readable(files[f], Now(), size)
      modifies files, fs`owner, fs`table, fs.inodes, fs.dev, fs.dev.sectors, fs.dev.cache
      ensures Valid() && Now() == old(Now())
      ensures var x := old(files[f]);
              ReadOf(x, Now(), size, dev, res, buf) && files[..] == old(files[..])[f := Advanced(x, if x.typ == TYPE_FILE then res else -1)]
    {
      hide FsOk, NotDir, Accounted, KnownTypes, Contents;
      res, buf := -1, [];
      ghost var x := files[f];
      if files[f].readable {
        if files[f].typ == TYPE_FILE {
          FileInUse(f);
          SlotInUse(x.inode);
          SizeIs(fs.dev.blocks, fs.table[x.inode].no);
          ValidFs();
          res, buf := fs.Iread(files[f].inode, files[f].offset, size);
          FsKept(links, old(State(fs, links)));
          if res >= 0 {
            ContentsFit(fs.table[x.inode].no);
            FilesKeep(files[..], Now(), others, f, Advanced(x, res));
            files[f] := files[f].(offset := files[f].offset + res);
          }
        } else if files[f].typ == TYPE_DEV {
          res, buf := |dev|, dev;
        }
      }
    }

    /** The part of fwrite for disk files. */
    method WriteFile(f: nat, buf: seq<byte>) returns (res: int)
      requires Valid() && f < TOTAL_FILE && files[f].ref > 0 && files[f].typ == TYPE_FILE && files[f].writable
      requires RoomToWrite(files[f], Now(), |buf|)
      modifies files, fs`owner, fs`table, fs.inodes, fs.dev, fs.dev.sectors, fs.dev.cache
      ensures Valid() && SameRefs(old(fs.table), fs.table) && links == old(links)
      ensures WriteOf(old(files[f]), old(Now()), Now(), buf, 0, res)
      ensures files[..] == old(files[..])[f := Advanced(old(files[f]), res)]
    {
      hide FsOk, NotDir, Accounted, KnownTypes, Contents, DinodeAt, SameFile, FilesOk, FileOk, Splice, Without,
        OwnerGrown, WriteCost, TreeOk, Dead, SameRefs, WriteOf, SameHeader, Separated, Sized, Device.Valid;
      ghost var x, a, f0 := files[f], Now(), files[..];
      FileInUse(f);
      SlotInUse(x.inode);
      WritableFile(f);
      ValidFs();
      ValidParts(a);
      res := fs.Iwrite(files[f].inode, files[f].offset, buf);
      ghost var b := Now();
      WroteThat(a, b, x, buf, res);
      AfterWrite(links, a, b, f0, others, f, res);
      FsKept(links, b);
      if res >= 0 {
        files[f] := files[f].(offset := files[f].offset + res);
      }
      assert files[..] == f0[f := Advanced(x, res)];
    }

    lemma ValidParts(a: FsState)
      requires fs.Valid() && a == Now()
      ensures TableOk(a.table, a.disk) && forall j :: 0 <= j < INUM ==> Sized(a.disk, j)
    {
    }

    /** fwrite; `dev` is what the device would answer. The write must fit the largest file and the disk. */
    method Fwrite(f: nat, buf: seq<byte>, dev: int) returns (res: int)
      requires Valid() && f < TOTAL_FILE && files[f].ref > 0
      requires files[f].typ == TYPE_FILE && files[f].writable ==> RoomToWrite(files[f], Now(), |buf|)
      modifies files, fs`owner, fs`table, fs.inodes, fs.dev, fs.dev.sectors, fs.dev.cache
      ensures Valid() && SameRefs(old(fs.table), fs.table) && links == old(links)
      ensures WriteOf(old(files[f]), old(Now()), Now(), buf, dev, res)
      ensures var x := old(files[f]); files[..] == old(files[..])[f := Advanced(x, if x.typ == TYPE_FILE then res else -1)]
    {
      hide FsOk, FilesOk;
      res := -1;
      if files[f].writable {
        if files[f].typ == TYPE_FILE {
          res := WriteFile(f, buf);
        } else if files[f].typ == TYPE_DEV {
          res := dev;
        }
      }
    }

    /** What is open for writing is a plain file. */
    lemma WritableFile(f: nat)
      requires Valid() && f < TOTAL_FILE && files[f].ref > 0 && files[f].typ == TYPE_FILE && files[f].writable
      ensures files[f].inode < INODE_NUM && NotDir(fs.dev.blocks, fs.table[files[f].inode].no)
    {
      hide FsOk, NotDir, KnownTypes, Accounted;
      assert FileOk(files[f], fs.table, fs.dev.blocks);
    }

    /** fseek, whence being SEEK_SET, SEEK_CUR or SEEK_END; on a device it does nothing and gives -1. */
    method Fseek(f: nat, off: u32, whence: nat) returns (res: u32)
      requires Valid() && f < TOTAL_FILE && files[f].ref > 0 && whence <= 2
      modifies files
      ensures Valid()
      ensures var x := old(files[f]);
              if x.typ != TYPE_FILE then res == 0xffff_ffff && files[..] == old(files[..])
              else
                && x.inode < INODE_NUM && res == Sought(x.offset, fs.table[x.inode].dinode.size, off, whence)
                && files[..] == old(files[..])[f := x.(offset := res)]
    {
      hide FsOk, NotDir, Accounted, KnownTypes;
      res := 0xffff_ffff;
      if files[f].typ == TYPE_FILE {
        FileInUse(f);
        SlotInUse(files[f].inode);
        var size := fs.inodes[files[f].inode].dinode.size;
        res := if whence == 0 then off else if whence == 1 then U32Add(files[f].offset, off) else U32Add(size, off);
        FilesKeep(files[..], Now(), others, f, files[f].(offset := res));
        files[f] := files[f].(offset := res);
      }
    }

    /** idup, for one more holder that is no file. */
    method HoldDup(s: nat)
      requires Valid() && s < INODE_NUM && fs.table[s].ref > 0
      modifies this`others, fs`table, fs.inodes
      ensures Valid() && others == old(others)[s := old(others)[s] + 1] && RefsPlus(old(fs.table), fs.table, s)
    {
      hide NotDir, Separated, Device.Valid, Sized, TreeOk, DinodeAt, KnownTypes, Steady, Accounted, FileOk, Dead;
      ghost var a := Now();
      var _ := fs.Idup(s);
      DeadPlus(a.table, fs.table, s);
      SameSteady(a, Now(), s);
      HoldMore(files[..], a, Now(), others, s);
      others := others[s := others[s] + 1];
    }

    /** iremove: open files, and their inodes, are left as they are. */
    method Unlink(path: seq<byte>, cwd: nat) returns (r: int)
      requires Valid() && IsPath(path) && Room(fs.table, 2)
      requires CwdOk(fs.dev.blocks, fs.table, path, cwd)
      modifies this`links, fs`owner, fs`table, fs.inodes, fs.dev, fs.dev.sectors, fs.dev.cache
      ensures Valid() && RemovedPath(old(Now()), Now(), Start(path, CwdNo(old(fs.table), cwd)), Components(path), r)
    {
      hide NotDir, Separated, Device.Valid, Sized, TreeOk, DinodeAt, KnownTypes, Fs.Valid, Dead, Accounted, FileOk,
        LiveDir, Room, Steady, RemovedPath;
      ghost var a := Now();
      NumbersOk();
      ghost var links2;
      r, links2 := Iremove(fs, path, cwd, links);
      links := links2;
      RemovedSteady(a, Now(), Start(path, CwdNo(a.table, cwd)), Components(path), r);
      FilesUnmoved(files[..], a, Now(), others);
    }

    /** So does any other holder. */
    lemma OtherInUse(s: nat)
      requires Valid() && s < INODE_NUM && others[s] > 0
      ensures fs.table[s].ref > 0
    {
      hide FsOk, KnownTypes;
    }

    lemma OthersBelow(s: nat)
      requires Valid() && s < INODE_NUM
      ensures others[s] <= fs.table[s].ref
    {
      hide FsOk, KnownTypes;
    }

    /** An open disk file keeps its inode active. */
    lemma FileInUse(f: nat)
      requires Valid() && f < TOTAL_FILE && files[f].ref > 0 && files[f].typ == TYPE_FILE
      ensures files[f].inode < INODE_NUM && fs.table[files[f].inode].ref > 0
    {
      hide FsOk, NotDir, KnownTypes;
      assert FileOk(files[f], fs.table, fs.dev.blocks);
      UsersAtLeast(files[..], f, files[f].inode);
    }

    lemma ValidFs()
      requires Valid()
      ensures fs.Valid() && TreeOk(fs.dev.blocks, Dead(fs.table), links)
    {
    }

    lemma ContentsFit(i: nat)
      requires fs.Valid() && i < INUM
      ensures |Contents(fs.dev.blocks, i)| == DinodeAt(fs.dev.blocks, i).size <= MAX_SIZE
    {
      hide DinodeAt, PosBlk, Contents;
      SizedFacts(fs.dev.blocks, i);
    }

    lemma FsKept(links: Links, a: FsState)
      requires fs.Valid() && State(fs, links) == a && TreeOk(a.disk, Dead(a.table), links)
      ensures FsOk(fs, links)
    {
    }
  }

  /** The reference in slot s is given back: the last one to a deleted inode frees it and all its blocks, and then it is
      no longer among the dead; any other leaves the disk as it is. */
  ghost predicate Closed(a: FsState, b: FsState, s: nat) {
    && s < |a.table| && a.table[s].ref > 0 && |b.table| == |a.table| && b.table == a.table[s := b.table[s]]
    && b.table[s].ref == a.table[s].ref - 1 && b.table[s].no == a.table[s].no && b.table[s].del == a.table[s].del
    && if Freed(a.table[s]) then
         && a.table[s].no < INUM && FreedFile(b.disk, a.owner, b.owner, a.table[s].no)
         && (forall j :: 0 <= j < INUM && j != a.table[s].no ==> SameFile(a.disk, b.disk, j))
         && Dead(b.table) == Dead(a.table) - {a.table[s].no}
       else SameDisk(a, b) && Dead(b.table) == Dead(a.table)
  }

  /** Giving back a reference to one inode leaves every inode that is still active as it was. */
  lemma ClosedKeeps(a: FsState, b: FsState, s: nat, u: nat)
    requires TableOk(a.table, a.disk) && Closed(a, b, s) && u < INODE_NUM && a.table[u].ref > (if u == s then 1 else 0)
    ensures b.table[u].no == a.table[u].no < INUM && DinodeAt(b.disk, b.table[u].no) == DinodeAt(a.disk, a.table[u].no)
  {
    hide DinodeAt, PosBlk, Dead, FreedFile;
    if Freed(a.table[s]) {
      assert a.table[u].no != a.table[s].no && SameFile(a.disk, b.disk, a.table[u].no);
    }
  }

  /** Which inodes are no longer among the dead. */
  ghost function Gone(a: FsState, b: FsState): set<nat> {
    Dead(a.table) - Dead(b.table)
  }

  /** The owned blocks but for those of some inodes. */
  ghost function Left(owner: Owner, gone: set<nat>): Owner {
    map blk | blk in owner && owner[blk].0 !in gone :: owner[blk]
  }

  /** References were given back, and nothing else: the inodes that were dead and are no longer are free, with exactly
      their blocks; every other inode is as it was. */
  ghost predicate Dropped(a: FsState, b: FsState) {
    && b.links == a.links && |b.table| == |a.table| && Dead(b.table) <= Dead(a.table)
    && (forall u :: 0 <= u < |a.table| ==>
          b.table[u].ref <= a.table[u].ref && b.table[u].no == a.table[u].no && b.table[u].del == a.table[u].del)
    && (forall j :: 0 <= j < INUM && j !in Gone(a, b) ==> SameFile(a.disk, b.disk, j))
    && (forall j :: 0 <= j < INUM && j in Gone(a, b) ==> DinodeAt(b.disk, j) == ZeroDinode)
    && b.owner == Left(a.owner, Gone(a, b))
  }

  lemma NothingDropped(a: FsState)
    ensures Dropped(a, a)
  {
    hide DinodeAt, PosBlk;
    SameFilesRefl(a.disk, ROOT);
  }

  lemma ClosedDrops(a: FsState, b: FsState, s: nat)
    requires Closed(a, b, s) && b.links == a.links
    ensures Dropped(a, b)
  {
    hide DinodeAt, SameFile, Dead;
    if Freed(a.table[s]) {
      var no := a.table[s].no;
      IsDead(a.table, s);
      assert Gone(a, b) == {no};
      assert Without(a.owner, no) == Left(a.owner, {no});
    } else {
      SameFilesRefl(a.disk, ROOT);
      assert Gone(a, b) == {};
      assert Left(a.owner, {}) == a.owner;
    }
  }

  lemma IsDead(table: Table, s: nat)
    requires s < |table| && table[s].ref > 0 && table[s].del
    ensures table[s].no in Dead(table)
  {
  }

  lemma DroppedTwice(a: FsState, b: FsState, c: FsState)
    requires Dropped(a, b) && Dropped(b, c)
    ensures Dropped(a, c)
  {
    hide DinodeAt, SameFile, Dead;
    assert Gone(a, c) == Gone(a, b) + Gone(b, c);
    forall j | 0 <= j < INUM
      ensures j !in Gone(a, c) ==> SameFile(a.disk, c.disk, j)
      ensures j in Gone(a, c) ==> DinodeAt(c.disk, j) == ZeroDinode
    {
      if j !in Gone(a, c) {
        SameFileTrans(a.disk, b.disk, c.disk, j);
      } else if j in Gone(a, b) {
        SameDinode(b.disk, c.disk, j);
      }
    }
    assert Left(Left(a.owner, Gone(a, b)), Gone(b, c)) == Left(a.owner, Gone(a, c));
  }

  lemma SameSteady(a: FsState, b: FsState, s: nat)
    requires |a.table| == INODE_NUM && KnownTypes(a.disk) && b.disk == a.disk && |b.table| == INODE_NUM
    requires forall u :: 0 <= u < INODE_NUM ==> b.table[u].no == a.table[u].no
    ensures Steady(a, b)
  {
    hide KnownTypes, NotDir;
  }

  lemma GoneSteady(a: FsState, b: FsState, s: nat)
    requires TableOk(a.table, a.disk) && KnownTypes(a.disk) && s < INODE_NUM && a.table[s].ref > 0 && |b.table| == INODE_NUM
    requires b.table == a.table[s := b.table[s]] && b.table[s].ref == 0
    requires a.table[s].no < INUM && DinodeAt(b.disk, a.table[s].no) == ZeroDinode
    requires forall j :: 0 <= j < INUM && j != a.table[s].no ==> SameFile(a.disk, b.disk, j)
    ensures Steady(a, b)
  {
    hide DinodeAt, PosBlk;
    forall j | 0 <= j < INUM
      ensures DinodeAt(b.disk, j).typ <= TYPE_DEV
    {
      assert j != a.table[s].no ==> SameFile(a.disk, b.disk, j);
    }
    forall u | 0 <= u < INODE_NUM && a.table[u].ref > 0 && b.table[u].ref > 0
      ensures SteadySlot(a, b, u)
    {
      assert SameFile(a.disk, b.disk, a.table[u].no);
    }
  }

  lemma OneFewer(files: seq<File>, a: FsState, others: seq<nat>, f: nat)
    requires FilesOk(files, a, others) && f < TOTAL_FILE && files[f].ref > 0 && (files[f].ref > 1 || files[f].typ != TYPE_FILE)
    ensures FilesOk(files[f := files[f].(ref := files[f].ref - 1)], a, others)
  {
    hide NotDir, KnownTypes, Accounted;
    assert FileOk(files[f], a.table, a.disk);
    FilesKeep(files, a, others, f, files[f].(ref := files[f].ref - 1));
  }

  lemma LastUser(files: seq<File>, a: FsState, others: seq<nat>, f: nat)
    requires FilesOk(files, a, others) && f < TOTAL_FILE && files[f].ref == 1 && files[f].typ == TYPE_FILE
    ensures files[f].inode < INODE_NUM
    ensures FilesOk(files[f := files[f].(ref := 0)], a, others[files[f].inode := others[files[f].inode] + 1])
  {
    hide NotDir, KnownTypes;
    assert FileOk(files[f], a.table, a.disk);
    FilesLeave(files, a, others, files[f].inode, f, files[f].(ref := 0));
  }

  function Sought(at: u32, size: u32, off: u32, whence: nat): u32 {
    if whence == 0 then off else if whence == 1 then U32Add(at, off) else U32Add(size, off)
  }

  /** Seeking by nothing: to the start, to where the offset is, to the end. */
  lemma SoughtNothing(at: u32, size: u32)
    ensures Sought(at, size, 0, 0) == 0 && Sought(at, size, 0, 1) == at && Sought(at, size, 0, 2) == size
  {
  }

  /** Seeking back over n bytes, by the place before them and by minus n in 32 bits. */
  lemma SoughtBack(at: u32, n: nat, size: u32)
    requires 0 < n && at + n < 0x1_0000_0000
    ensures Sought((at + n) as u32, size, at, 0) == at && Sought((at + n) as u32, size, (0x1_0000_0000 - n) as u32, 1) == at
  {
  }

  /** fseek does let the offset cross the size: from within the file, whichever way it seeks... */
  lemma SoughtBeyond(size: u32, whence: nat)
    requires size < 0xffff_ffff && whence <= 2
    ensures exists at: u32, off: u32 :: at <= size && Sought(at, size, off, whence) > size
  {
    assert whence == 0 ==> Sought(0, size, size + 1, whence) > size;
    assert whence == 1 ==> Sought(size, size, 1, whence) > size;
    assert whence == 2 ==> Sought(0, size, 1, whence) > size;
  }

  /** ...and these are all the offsets with which it does not. */
  lemma SoughtWithin(at: u32, size: u32, off: u32, whence: nat)
    requires at <= size && whence <= 2
    ensures Sought(at, size, off, whence) <= size <==>
              || (whence == 0 && off <= size)
              || (whence == 1 && (off <= size - at || off >= 0x1_0000_0000 - at))
              || (whence == 2 && (off == 0 || off >= 0x1_0000_0000 - size))
  {
  }

  /** An offset within the file and the size of a read do not wrap; beyond the end any size will do. */
  ghost predicate Readable(x: File, a: FsState, size: u32) {
    x.inode < |a.table| && (x.offset <= a.table[x.inode].dinode.size ==> x.offset + size < 0x1_0000_0000)
  }

  ghost predicate RoomToWrite(x: File, a: FsState, n: nat) {
    x.inode < |a.table| && Writable(a.table[x.inode].dinode.size, x.offset, n, |a.owner|)
  }

  /** What writing an open file does: the bytes go in at its offset, and no other inode changes. */
  ghost predicate WriteOf(x: File, a: FsState, b: FsState, buf: seq<byte>, dev: int, res: int) {
    if x.writable && x.typ == TYPE_FILE then
      && x.inode < |a.table| && a.table[x.inode].no < INUM
      && var i := a.table[x.inode].no;
         && (forall j :: 0 <= j < INUM && j != i ==> SameFile(a.disk, b.disk, j))
         && SameHeader(DinodeAt(a.disk, i), DinodeAt(b.disk, i))
         && if x.offset > |Contents(a.disk, i)| then res == -1 && SameDisk(a, b)
            else res == |buf| && Contents(b.disk, i) == Splice(Contents(a.disk, i), x.offset, buf)
    else a == b && res == if x.writable && x.typ == TYPE_DEV then dev else -1
  }

  lemma WroteThat(a: FsState, b: FsState, x: File, buf: seq<byte>, res: int)
    requires x.writable && x.typ == TYPE_FILE && x.inode < |a.table| && a.table[x.inode].no < INUM && b.links == a.links
    requires a.table[x.inode].dinode == DinodeAt(a.disk, a.table[x.inode].no)
    requires Sized(a.disk, a.table[x.inode].no)
    requires var i := a.table[x.inode].no;
             && (forall j :: 0 <= j < INUM && j != i ==> SameFile(a.disk, b.disk, j))
             && SameHeader(DinodeAt(a.disk, i), DinodeAt(b.disk, i))
             && (x.offset > a.table[x.inode].dinode.size ==> res == -1 && b.disk == a.disk && b.owner == a.owner)
             && (x.offset <= a.table[x.inode].dinode.size ==>
                   res == |buf| && Contents(b.disk, i) == Splice(Contents(a.disk, i), x.offset, buf))
    ensures WriteOf(x, a, b, buf, 0, res)
  {
    hide DinodeAt, SameFile, Splice;
    SizedFacts(a.disk, a.table[x.inode].no);
  }

  /** The file system and the open files after iwrite to the inode of file f. */
  lemma AfterWrite(links: Links, a: FsState, b: FsState, files: seq<File>, others: seq<nat>, f: nat, res: int)
    requires FilesOk(files, a, others) && f < TOTAL_FILE && files[f].ref > 0 && files[f].typ == TYPE_FILE
    requires files[f].inode < INODE_NUM && a.table[files[f].inode].ref > 0
    requires TableOk(a.table, a.disk) && TreeOk(a.disk, Dead(a.table), links) && a.links == links == b.links
    requires forall j :: 0 <= j < INUM ==> Sized(a.disk, j)
    requires a.table[files[f].inode].no < INUM && NotDir(a.disk, a.table[files[f].inode].no)
    requires var i := a.table[files[f].inode].no;
             && (forall j :: 0 <= j < INUM && j != i ==> SameFile(a.disk, b.disk, j))
             && SameHeader(DinodeAt(a.disk, i), DinodeAt(b.disk, i))
             && b.table == a.table[files[f].inode := a.table[files[f].inode].(dinode := DinodeAt(b.disk, i))]
    ensures TreeOk(b.disk, Dead(b.table), links) && SameRefs(a.table, b.table)
    ensures FilesOk(files, b, others) && FilesOk(files[f := Advanced(files[f], res)], b, others)
  {
    hide DinodeAt, Contents, Sized, SameFile, TreeOk, KnownTypes, Accounted, Separated;
    var s := files[f].inode;
    FileChange(a.table, b.table, a.disk, b.disk, links, s);
    ChangedSteady(a, b, a.table[s].no);
    HoldSame(files, a, b, others);
    assert FileOk(files[f], b.table, b.disk);
    FilesKeep(files, b, others, f, Advanced(files[f], res));
  }

  /** The offset after a read or write of `res` bytes; a failed one does not move it. */
  function Advanced(x: File, res: int): File {
    if res >= 0 && x.offset + res < 0x1_0000_0000 then x.(offset := x.offset + res) else x
  }

  /** What reading an open file gives: the bytes from its offset on, as many as asked for and there are. */
  ghost predicate ReadOf(x: File, a: FsState, size: u32, dev: seq<byte>, res: int, buf: seq<byte>) {
    if !x.readable then res == -1 && buf == []
    else if x.typ == TYPE_FILE then
      && x.inode < |a.table| && a.table[x.inode].no < INUM
      && var c := Contents(a.disk, a.table[x.inode].no);
         if x.offset > |c| then res == -1 && buf == [] else res == |buf| && buf == c[x.offset..Min(x.offset + size, |c|)]
    else if x.typ == TYPE_DEV then res == |dev| && buf == dev
    else res == -1 && buf == []
  }

  /** What fopen comes to once iopen has led from a to m: the file refers to the inode that was opened, unless the mode
      is refused; a device file keeps no reference to its inode; and nothing is left held otherwise. */
  ghost predicate Fopened(a: FsState, m: FsState, b: FsState, s: Option<nat>, mode: Mode, f0: seq<File>, f1: seq<File>,
                          r: Option<nat>) {
    && |f0| == |f1| == TOTAL_FILE
    && if s.None? then r.None? && SameDisk(m, b) && SameRefs(a.table, b.table) && SameOpen(f0, f1)
       else
         && s.value < |m.table| && m.table[s.value].no < INUM
         && var d := DinodeAt(m.disk, m.table[s.value].no);
            if Refused(mode, d.typ) then r.None? && SameDisk(m, b) && SameRefs(a.table, b.table) && SameOpen(f0, f1)
            else
              && r.Some? && r.value < TOTAL_FILE && f0[r.value].ref == 0 && f1 == f0[r.value := f1[r.value]]
              && f1[r.value].ref == 1 && FileOf(f1[r.value], s.value, mode, d)
              && if d.typ == TYPE_DEV then SameDisk(m, b) && SameRefs(a.table, b.table)
                 else
                   && RefsPlus(a.table, b.table, s.value) && b.table[s.value].no == m.table[s.value].no
                   && if d.typ == TYPE_FILE && mode.trunc then Emptied(m, b, m.table[s.value].no) else SameDisk(m, b)
  }

  predicate FileOf(f: File, s: nat, mode: Mode, d: Dinode) {
    && f.readable == !mode.wronly && f.writable == (mode.wronly || mode.rdwr)
    && if d.typ == TYPE_DEV then f.typ == TYPE_DEV && f.dev == d.device
       else f.typ == TYPE_FILE && f.inode == s && f.offset == 0
  }

  /** The same files are in use, and they are as they were. */
  predicate SameOpen(f0: seq<File>, f1: seq<File>)
    requires |f0| == |f1|
  {
    forall f :: 0 <= f < |f0| ==> f1[f].ref == f0[f].ref && (f0[f].ref > 0 ==> f1[f] == f0[f])
  }

  /** The bytes of inode i are gone, all else is as it was. */
  ghost predicate Emptied(a: FsState, b: FsState, i: nat) {
    && i < INUM && DinodeAt(b.disk, i) == Truncated(DinodeAt(a.disk, i)) && b.owner == Without(a.owner, i) && b.links == a.links
    && forall j :: 0 <= j < INUM && j != i ==> SameFile(a.disk, b.disk, j)
  }

  /** One inode changed, and not its type. */
  lemma ChangedSteady(a: FsState, b: FsState, i: nat)
    requires |a.table| == |b.table| == INODE_NUM && KnownTypes(a.disk) && i < INUM
    requires DinodeAt(b.disk, i).typ == DinodeAt(a.disk, i).typ
    requires forall j :: 0 <= j < INUM && j != i ==> SameFile(a.disk, b.disk, j)
    requires forall u :: 0 <= u < INODE_NUM ==> b.table[u].no == a.table[u].no
    ensures Steady(a, b)
  {
    hide DinodeAt, PosBlk;
    forall j | 0 <= j < INUM
      ensures DinodeAt(b.disk, j).typ == DinodeAt(a.disk, j).typ
    {
      assert j != i ==> SameFile(a.disk, b.disk, j);
    }
  }

  lemma EmptiedSteady(a: FsState, b: FsState, s: nat)
    requires |a.table| == |b.table| == INODE_NUM && KnownTypes(a.disk) && s < INODE_NUM && Emptied(a, b, a.table[s].no)
    requires forall u :: 0 <= u < INODE_NUM ==> b.table[u] == a.table[u].(dinode := b.table[u].dinode)
    ensures Steady(a, b)
  {
    hide DinodeAt, KnownTypes;
    ChangedSteady(a, b, a.table[s].no);
  }

  lemma RefsAfter(t0: Table, t1: Table, t2: Table, s: nat)
    requires RefsPlus(t0, t1, s) && SameRefs(t1, t2)
    ensures RefsPlus(t0, t2, s) && t2[s].no == t1[s].no
  {
    assert forall u :: 0 <= u < |t0| ==> SameSlot(t1[u], t2[u]);
    assert forall u :: 0 <= u < |t0| && u != s ==> SameSlot(t0[u], t1[u]);
  }

  lemma TypeIs(disk: Disk, i: nat)
    requires i < INUM
    ensures NotDir(disk, i) <==> DinodeAt(disk, i).typ == TYPE_FILE
  {
    hide DinodeAt;
  }

  lemma SizeIs(disk: Disk, i: nat)
    requires i < INUM
    ensures DinodeAt(disk, i).size <= MAX_SIZE ==> |Contents(disk, i)| <= MAX_SIZE
  {
    hide DinodeAt;
  }

  lemma FilesUnmoved(files: seq<File>, a: FsState, b: FsState, others: seq<nat>)
    requires FilesOk(files, a, others) && Steady(a, b) && forall s :: 0 <= s < INODE_NUM ==> b.table[s].ref == a.table[s].ref
    ensures FilesOk(files, b, others)
  {
    hide NotDir, KnownTypes;
    FilesSteady(files, a, b, others, others);
  }

  lemma RemovedSteady(a: FsState, b: FsState, start: nat, comps: seq<Name>, r: int)
    requires RemovedPath(a, b, start, comps, r) && KnownTypes(a.disk) && |a.table| == INODE_NUM
    requires forall u :: 0 <= u < INODE_NUM && a.table[u].ref > 0 ==> a.table[u].no < INUM
    ensures Steady(a, b) && forall s :: 0 <= s < INODE_NUM ==> b.table[s].ref == a.table[s].ref
  {
    hide DinodeAt, Contents, WellDir, DirMap, ParentFrom, KnownTypes, NotDir, Unlinked, RemovableIn;
    if r == 0 {
      var d := ParentFrom(a.disk, start, comps).value;
      InDir(a.disk, d, comps[|comps| - 1]);
      UnlinkedSteady(a, b, d, comps[|comps| - 1], DirMap(Contents(a.disk, d))[comps[|comps| - 1]]);
    } else {
      assert forall u :: 0 <= u < INODE_NUM ==> SameSlot(a.table[u], b.table[u]);
    }
  }

  lemma InDir(disk: Disk, d: nat, name: Name)
    requires d < INUM && RemovableIn(disk, d, name)
    ensures WellDir(Contents(disk, d)) && name in DirMap(Contents(disk, d)) && DirMap(Contents(disk, d))[name] < INUM
  {
    hide DinodeAt, Contents, WellDir, DirMap, RemovableFile;
  }

  lemma UnlinkedSteady(a: FsState, b: FsState, d: nat, name: Name, t: nat)
    requires d < INUM && t < INUM && Unlinked(a, b, d, name, t) && KnownTypes(a.disk) && |a.table| == INODE_NUM
    requires forall u :: 0 <= u < INODE_NUM && a.table[u].ref > 0 ==> a.table[u].no < INUM
    ensures Steady(a, b) && forall s :: 0 <= s < INODE_NUM ==> b.table[s].ref == a.table[s].ref
  {
    hide DinodeAt, Contents, WellDir, DirMap, PosBlk;
    forall i | 0 <= i < INUM
      ensures i != t ==> DinodeAt(b.disk, i).typ == DinodeAt(a.disk, i).typ
      ensures DinodeAt(b.disk, i).typ <= TYPE_DEV
    {
      assert i != d && i != t ==> SameFile(a.disk, b.disk, i);
    }
    forall u | 0 <= u < INODE_NUM
      ensures b.table[u].ref == a.table[u].ref && (a.table[u].ref > 0 ==> SteadySlot(a, b, u))
    {
      assert MarkedSlot(a.table[u], b.table[u], t);
      if a.table[u].ref > 0 && a.table[u].no == t {
        assert IsOpen(a.table, t);
      }
    }
  }
}
