/** iopen: the inode a path names, opened, or created where its parent directory is. */
module Open {
  import opened Options
  import opened Bytes
  import opened BlockDevice
  import opened FsLayout
  import opened FileSystem
  import opened Directory
  import opened Tree
  import opened Path
  import opened PathOps
  import opened Walk

  /** `no` is opened in slot `s`, if it is given; nothing else is different. */
  ghost predicate OpenedOnly(a: FsState, b: FsState, s: Option<nat>, no: Option<nat>) {
    && SameDisk(a, b)
    && if no.None? then s.None? && SameRefs(a.table, b.table) else s.Some? && OpenedAt(a, b, s.value, no.value)
  }

  /** A new file of type `typ` is made under `name` in directory `d`, and opened. */
  ghost predicate OpenedNew(a: FsState, b: FsState, s: Option<nat>, d: nat, name: Name, typ: u32) {
    && s.Some? && d < INUM && RefsPlus(a.table, b.table, s.value) && b.table[s.value].no < INUM
    && exists off :: Made(a, b, d, name, b.table[s.value].no, typ, off)
  }

  /** What opening a path does: the inode it resolves to is opened; else, if a type is given and the parent
      is a directory, a file is created there; else nothing. */
  ghost predicate OpenedPath(a: FsState, b: FsState, path: seq<byte>, cwd: nat, typ: u32, s: Option<nat>) {
    var comps := Components(path);
    var start := Start(path, cwd);
    if comps == [] then OpenedOnly(a, b, s, if path == [] then None else Some(ROOT))
    else if Resolve(a.disk, start, comps).Some? then OpenedOnly(a, b, s, Resolve(a.disk, start, comps))
    else if typ != TYPE_NONE && IsDir(a.disk, ParentFrom(a.disk, start, comps))
    then OpenedNew(a, b, s, ParentFrom(a.disk, start, comps).value, comps[|comps| - 1], typ)
    else OpenedOnly(a, b, s, None)
  }

  /** Resolving a path is looking up its last component in its parent. */
  lemma ResolveLast(disk: Disk, start: nat, comps: seq<Name>)
    requires comps != []
    ensures !IsDir(disk, ParentFrom(disk, start, comps)) ==> Resolve(disk, start, comps).None?
    ensures IsDir(disk, ParentFrom(disk, start, comps)) && WellDir(Contents(disk, ParentFrom(disk, start, comps).value)) ==>
      var m := DirMap(Contents(disk, ParentFrom(disk, start, comps).value));
      var name := comps[|comps| - 1];
      Resolve(disk, start, comps) == if name in m then Some(m[name] as nat) else None
  {
    hide DinodeAt, Contents, WellDir, DirMap;
    ResolveSplit(disk, start, comps);
    var p := ParentFrom(disk, start, comps);
    var last := [comps[|comps| - 1]];
    assert last[1..] == [];
    if p.Some? && IsDir(disk, p) && WellDir(Contents(disk, p.value)) && last[0] in DirMap(Contents(disk, p.value)) {
      assert Resolve(disk, DirMap(Contents(disk, p.value))[last[0]], []) == Some(DirMap(Contents(disk, p.value))[last[0]] as nat);
    }
  }

  lemma NoParent(a: FsState, b: FsState, path: seq<byte>, cwd: nat, typ: u32, name: Name)
    requires SameDisk(a, b) && Components(path) != []
    requires Arrived(a.table, b.table, a.disk, Start(path, cwd), Components(path), None, name)
    ensures OpenedPath(a, b, path, cwd, typ, None)
  {
    hide DinodeAt, Contents, WellDir, DirMap, ParentFrom, Resolve, SameRefs, Components;
    ResolveLast(a.disk, Start(path, cwd), Components(path));
  }

  /** The parent was opened, the name looked up in it, and the parent closed. */
  lemma FromParent(a: FsState, b: FsState, c: FsState, e: FsState, path: seq<byte>, cwd: nat, typ: u32,
                   parent: nat, d: nat, name: Name, s: Option<nat>, off: nat)
    requires SameDisk(a, b) && Components(path) != []
    requires Arrived(a.table, b.table, a.disk, Start(path, cwd), Components(path), Some(parent), name)
    requires parent < |b.table| && b.table[parent].no == d
    requires LookedUp(b, c, d, name, typ, s, off)
    requires c.disk == e.disk && c.owner == e.owner && c.links == e.links && parent < |c.table|
    requires c.table[parent].ref > 0 && e.table == c.table[parent := c.table[parent].(ref := c.table[parent].ref - 1)]
    ensures OpenedPath(a, e, path, cwd, typ, s)
  {
    hide DinodeAt, Contents, WellDir, DirMap, ParentFrom, Resolve, Components, Created, Bound, FoundAt;
    ResolveLast(a.disk, Start(path, cwd), Components(path));
    if s.Some? {
      TakeRefs(a.table, b.table, c.table, e.table, parent, s.value);
      if Resolve(a.disk, Start(path, cwd), Components(path)).None? {
        assert Made(a, e, d, name, e.table[s.value].no, typ, off);
      }
    } else {
      DropRef(a.table, b.table, e.table, parent);
    }
  }

  /** What the lookup in the opened parent needs, and what closing the parent needs after it. */
  lemma ParentReady(a: FsState, b: FsState, dead: set<nat>, links: Links, start: nat, comps: seq<Name>, ip: nat,
          name: Name)
    requires Arrived(a.table, b.table, a.disk, start, comps, Some(ip), name) && SameDisk(a, b) && Room(a.table, 2)
    requires TableOk(b.table, b.disk) && dead == Dead(b.table) && ip < |b.table| && b.table[ip].ref > 0
    requires TreeOk(b.disk, dead, links) && Alive(b.disk, dead, b.table[ip].no)
    ensures RefsPlus(a.table, b.table, ip) && Room(b.table, 1)
    ensures LiveDir(b.disk, dead, b.table[ip].no)
  {
    hide DinodeAt, Contents, WellDir, DirMap, ParentFrom, RefsPlus, TreeOk, Dead;
    RoomPlus(a.table, b.table, ip);
  }

  lemma AfterLookup(t0: Table, b: FsState, c: FsState, d: nat, name: Name, typ: u32, s: Option<nat>, off: nat, ip: nat)
    requires RefsPlus(t0, b.table, ip) && LookedUp(b, c, d, name, typ, s, off)
    ensures ip < |c.table| && c.table[ip].ref > 0 && !Freed(c.table[ip]) && c.table[ip].no == b.table[ip].no
    ensures Dead(c.table) == Dead(b.table)
  {
    hide DinodeAt, Contents, WellDir, DirMap, Created, Bound, FoundAt, Made, Dead;
    if s.Some? {
      DeadPlus(b.table, c.table, s.value);
    }
  }

  lemma EmptyPath(path: seq<byte>)
    requires Components(path) == []
    ensures path == [] || path[0] == SLASH
  {
  }

  /** The paths without a component: "/" is the root, "" names nothing. */
  method OpenRoot(fs: Fs, path: seq<byte>, cwd: nat, ghost links: Links) returns (s: Option<nat>)
    requires FsOk(fs, links) && Room(fs.table, 2) && (path == [] || path[0] == SLASH)
    modifies fs`table, fs.inodes, fs.dev.cache
    ensures FsOk(fs, links)
    ensures OpenedOnly(old(State(fs, links)), State(fs, links), s, if path == [] then None else Some(ROOT))
    ensures Dead(fs.table) == Dead(old(fs.table))
  {
    hide DinodeAt, Separated, Device.Valid, Sized, TableOk, Dead, DirOk, LinkOk;
    ghost var table := fs.table;
    ghost var free :| 0 <= free < INODE_NUM && table[free].ref == 0;
    s := None;
    if path != [] && path[0] == SLASH {
      var ip := fs.Iget(fs.sb.root);
      OpenedPlus(table, fs.table, ip, ROOT, DinodeAt(fs.dev.blocks, ROOT));
      DeadPlus(table, fs.table, ip);
      s := Some(ip);
    }
  }

  lemma OnlyRoot(a: FsState, b: FsState, path: seq<byte>, cwd: nat, typ: u32, s: Option<nat>)
    requires Components(path) == [] && OpenedOnly(a, b, s, if path == [] then None else Some(ROOT))
    ensures OpenedPath(a, b, path, cwd, typ, s)
  {
    hide Components, OpenedOnly, Resolve;
  }

  method Iopen(fs: Fs, path: seq<byte>, typ: u32, cwd: nat, ghost links: Links) returns (s: Option<nat>,
          ghost links': Links)
    requires FsOk(fs, links) && IsPath(path)
    requires CwdOk(fs.dev.blocks, fs.table, path, cwd)
    requires Room(fs.table, 2)
    requires typ != TYPE_NONE ==> CanCreate(fs.dev.blocks, fs.owner)
    modifies fs`owner, fs`table, fs.inodes, fs.dev, fs.dev.sectors, fs.dev.cache
    ensures FsOk(fs, links')
    ensures OpenedPath(old(State(fs, links)), State(fs, links'), path, CwdNo(old(fs.table), cwd), typ, s)
    ensures Dead(fs.table) == Dead(old(fs.table))
  {
    hide DinodeAt, Separated, Device.Valid, Contents, Sized, WellDir, TableOk, DirMap, ParentFrom, TreeOk, Resolve,
      Dead, RefsPlus, SameRefs, Fs.Valid, Components, IsName, OpenedPath, Arrived, CanCreate;
    links' := links;
    ghost var a := State(fs, links);
    ghost var no := CwdNo(fs.table, cwd);
    var after, first := SkipElem(path);
    if after.None? {
      EmptyPath(path);
      s := OpenRoot(fs, path, cwd, links);
      OnlyRoot(a, State(fs, links), path, no, typ, s);
      return;
    }
    var parent, name := IopenParent(fs, path, cwd, links);
    ghost var b := State(fs, links);
    if parent.None? {
      NoParent(a, b, path, no, typ, name);
      s := None;
      return;
    }
    var off;
    ghost var d := fs.table[parent.value].no;
    ParentReady(a, b, Dead(fs.table), links, Start(path, no), Components(path), parent.value, name);
    s, off, links' := Ilookup(fs, parent.value, name, typ, links);
    ghost var c := State(fs, links');
    AfterLookup(a.table, b, c, d, name, typ, s, off, parent.value);
    Put(fs, parent.value, links');
    FromParent(a, b, c, State(fs, links'), path, no, typ, parent.value, d, name, s, off);
  }
}
