/** Opening by path: the walk of iopen_parent, and iopen itself (kernel/src/fs.c). */
module Walk {
  import opened Options
  import opened Bytes
  import opened BlockDevice
  import opened FsLayout
  import opened FileSystem
  import opened Directory
  import opened Tree
  import opened Path
  import opened PathOps

  ghost predicate FsOk(fs: Fs, links: Links)
    reads fs, fs.inodes, fs.dev, fs.dev.sectors, fs.dev.cache
    ensures FsOk(fs, links) ==> fs.inodes.Length == |fs.table| == INODE_NUM
  {
    fs.Valid() && TreeOk(fs.dev.blocks, Dead(fs.table), links)
  }

  lemma TakeRefs(t0: Table, t1: Table, t2: Table, t3: Table, ip: nat, next: nat)
    requires RefsPlus(t0, t1, ip) && RefsPlus(t1, t2, next)
    requires |t3| == |t2| && t3 == t2[ip := t3[ip]]
    requires t3[ip].ref == t2[ip].ref - 1 && t3[ip].no == t2[ip].no && t3[ip].del == t2[ip].del
    ensures RefsPlus(t0, t3, next)
    ensures t3[next].no == t2[next].no
  {
  }

  lemma DropRef(t0: Table, t1: Table, t2: Table, s: nat)
    requires RefsPlus(t0, t1, s)
    requires |t2| == |t1| && t2 == t1[s := t2[s]]
    requires t2[s].ref == t1[s].ref - 1 && t2[s].no == t1[s].no && t2[s].del == t1[s].del
    ensures SameRefs(t0, t2)
  {
  }

  function Start(path: seq<byte>, cwd: nat): nat {
    if path != [] && path[0] == SLASH then ROOT else cwd
  }

  /** The inode number of a current directory. */
  function CwdNo(table: Table, cwd: nat): nat {
    if cwd < |table| then table[cwd].no else 0
  }

  /** A path that does not start at the root starts at a directory that is open and has not been removed. */
  ghost predicate CwdOk(disk: Disk, table: Table, path: seq<byte>, cwd: nat) {
    !(path != [] && path[0] == SLASH) ==>
      cwd < INODE_NUM && cwd < |table| && table[cwd].ref > 0 && LiveDir(disk, Dead(table), table[cwd].no)
  }

  ghost predicate IsDir(disk: Disk, r: Option<nat>) {
    r.Some? && r.value < INUM && DinodeAt(disk, r.value).typ == TYPE_DIR
  }

  /** Where the parent of the last of `comps`, not empty, is found from `d`. */
  ghost function ParentFrom(disk: Disk, d: nat, comps: seq<Name>): Option<nat>
    requires comps != []
  {
    Resolve(disk, d, comps[..|comps| - 1])
  }

  lemma ParentStep(disk: Disk, d: nat, comps: seq<Name>, rest: seq<Name>, name: Name)
    requires comps == [name] + rest && d < INUM
    ensures rest == [] ==> ParentFrom(disk, d, comps) == Some(d)
    ensures DinodeAt(disk, d).typ != TYPE_DIR ==> !IsDir(disk, ParentFrom(disk, d, comps))
    ensures rest != [] && DinodeAt(disk, d).typ == TYPE_DIR && WellDir(Contents(disk, d)) ==>
      var m := DirMap(Contents(disk, d));
      ParentFrom(disk, d, comps) == if name in m then ParentFrom(disk, m[name], rest) else None
  {
    hide DinodeAt, Contents, WellDir, DirMap;
    if rest == [] {
      assert comps[..|comps| - 1] == [];
    } else {
      assert comps[..|comps| - 1][1..] == rest[..|rest| - 1];
    }
  }

  lemma DeadPut(t0: Table, t1: Table, s: nat)
    requires s < |t0| && t0[s].ref > 0 && !Freed(t0[s]) && t1 == t0[s := t0[s].(ref := t0[s].ref - 1)]
    ensures Dead(t1) == Dead(t0)
  {
    forall n | n in Dead(t0)
      ensures n in Dead(t1)
    {
      var u :| 0 <= u < |t0| && t0[u].ref > 0 && t0[u].del && t0[u].no == n;
      assert t1[u].no == n && t1[u].ref > 0;
    }
  }

  /** iclose of a reference that is not the last one to a deleted inode. */
  method Put(fs: Fs, s: nat, ghost links: Links)
    requires FsOk(fs, links) && s < INODE_NUM && fs.table[s].ref > 0 && !Freed(fs.table[s])
    modifies fs`owner, fs`table, fs.inodes, fs.dev, fs.dev.sectors, fs.dev.cache
    ensures FsOk(fs, links) && fs.dev.blocks == old(fs.dev.blocks) && fs.owner == old(fs.owner)
    ensures fs.table == old(fs.table)[s := old(fs.table[s]).(ref := old(fs.table[s].ref) - 1)]
    ensures Dead(fs.table) == Dead(old(fs.table))
  {
    hide DinodeAt, PosBlk, SameFile, Separated, Device.Valid, Sized, TableOk, TreeOk, Dead;
    fs.Iclose(s);
    DeadPut(old(fs.table), fs.table, s);
  }

  /** One step down: the inode bound to `name` is opened, the directory is given back. */
  method Descend(fs: Fs, ip: nat, name: Name, ghost links: Links, ghost table0: Table) returns (next: Option<nat>)
    requires FsOk(fs, links) && IsName(name) && Room(table0, 2)
    requires ip < INODE_NUM && fs.table[ip].ref > 0 && LiveDir(fs.dev.blocks, Dead(fs.table), fs.table[ip].no)
    requires RefsPlus(table0, fs.table, ip)
    modifies fs`owner, fs`table, fs.inodes, fs.dev, fs.dev.sectors, fs.dev.cache
    ensures FsOk(fs, links) && fs.dev.blocks == old(fs.dev.blocks) && fs.owner == old(fs.owner)
    ensures Dead(fs.table) == Dead(old(fs.table))
    ensures old(fs.table[ip].no) < INUM && WellDir(Contents(fs.dev.blocks, old(fs.table[ip].no)))
    ensures Descended(table0, fs.table, DirMap(Contents(fs.dev.blocks, old(fs.table[ip].no))), name, next)
    ensures next.Some? ==> fs.table[next.value].ref > 0 && Alive(fs.dev.blocks, Dead(fs.table), fs.table[next.value].no)
  {
    hide DinodeAt, PosBlk, SameFile, Separated, Device.Valid, Contents, Sized, WellDir, TableOk, DirMap, TreeOk,
      Dead, FoundAt;
    ghost var t1 := fs.table;
    RoomPlus(table0, t1, ip);
    var off;
    ghost var links1;
    next, off, links1 := Ilookup(fs, ip, name, TYPE_NONE, links);
    ghost var t2 := fs.table;
    if next.Some? {
      DeadPlus(t1, t2, next.value);
      BoundAlive(fs.dev.blocks, Dead(t1), links, t1[ip].no, name);
    }
    Put(fs, ip, links);
    if next.Some? {
      TakeRefs(table0, t1, t2, fs.table, ip, next.value);
    } else {
      DropRef(table0, t1, fs.table, ip);
    }
  }

  ghost predicate Descended(t0: Table, t1: Table, m: map<Name, u32>, name: Name, next: Option<nat>) {
    if name in m then next.Some? && next.value < INODE_NUM && RefsPlus(t0, t1, next.value) && t1[next.value].no == m[name]
    else next.None? && SameRefs(t0, t1)
  }

  /** Names of a live directory are bound to inodes alive. */
  lemma BoundAlive(disk: Disk, dead: set<nat>, links: Links, d: nat, name: Name)
    requires TreeOk(disk, dead, links) && LiveDir(disk, dead, d)
    ensures WellDir(Contents(disk, d))
    ensures name in DirMap(Contents(disk, d)) ==> Alive(disk, dead, DirMap(Contents(disk, d))[name])
  {
    hide DinodeAt, Contents, EntIno, EntName;
    var c := Contents(disk, d);
    assert DirOk(c, d, links);
    if name in DirMap(c) {
      var k :| 0 <= k < Len(c) && EntIno(c, k) != 0 && EntName(c, k) == name && EntIno(c, k) == DirMap(c)[name];
      EntryAlive(disk, dead, links, d, k);
    }
  }

  /** Give back the one reference taken since `table0`. */
  method GiveBack(fs: Fs, s: nat, ghost links: Links, ghost table0: Table)
    requires FsOk(fs, links) && s < INODE_NUM && RefsPlus(table0, fs.table, s) && fs.table[s].ref > 0
    modifies fs`owner, fs`table, fs.inodes, fs.dev, fs.dev.sectors, fs.dev.cache
    ensures FsOk(fs, links) && fs.dev.blocks == old(fs.dev.blocks) && fs.owner == old(fs.owner)
    ensures SameRefs(table0, fs.table) && Dead(fs.table) == Dead(old(fs.table))
  {
    hide DinodeAt, Separated, Device.Valid, Sized, TableOk, TreeOk, Dead;
    ghost var here := fs.table;
    Put(fs, s, links);
    DropRef(table0, here, fs.table, s);
  }

  lemma ActiveSlot(fs: Fs, links: Links, s: nat)
    requires FsOk(fs, links) && s < INODE_NUM && fs.table[s].ref > 0
    ensures fs.inodes.Length == |fs.table| == INODE_NUM && fs.inodes[s] == fs.table[s]
    ensures fs.table[s].no < INUM && fs.table[s].dinode == DinodeAt(fs.dev.blocks, fs.table[s].no)
  {
    hide DinodeAt, Separated, Device.Valid, Sized, TreeOk;
  }

  /** Where the walk starts: the root, or the current directory. */
  method StartAt(fs: Fs, path: seq<byte>, cwd: nat, ghost links: Links) returns (ip: nat)
    requires FsOk(fs, links)
    requires CwdOk(fs.dev.blocks, fs.table, path, cwd)
    requires Room(fs.table, 2)
    modifies fs`table, fs.inodes, fs.dev.cache
    ensures FsOk(fs, links) && fs.dev.blocks == old(fs.dev.blocks)
    ensures ip < INODE_NUM && fs.table[ip].ref > 0 && RefsPlus(old(fs.table), fs.table, ip)
    ensures fs.table[ip].no == Start(path, CwdNo(old(fs.table), cwd))
    ensures Alive(fs.dev.blocks, Dead(fs.table), fs.table[ip].no) && Dead(fs.table) == Dead(old(fs.table))
  {
    hide DinodeAt, Separated, Device.Valid, Sized, TableOk, Dead, DirOk, LinkOk;
    ghost var table := fs.table;
    ghost var free :| 0 <= free < INODE_NUM && table[free].ref == 0;
    if path != [] && path[0] == SLASH {
      ip := fs.Iget(fs.sb.root);
      OpenedPlus(table, fs.table, ip, ROOT, DinodeAt(fs.dev.blocks, ROOT));
    } else {
      ip := fs.Idup(cwd);
    }
    DeadPlus(table, fs.table, ip);
  }

  /** What a walk that stands at inode `d` with `comps` to go comes to. */
  ghost predicate Arrived(t0: Table, t1: Table, disk: Disk, d: nat, comps: seq<Name>, s: Option<nat>, name: Name) {
    if comps != [] && IsDir(disk, ParentFrom(disk, d, comps))
    then
      && s.Some? && RefsPlus(t0, t1, s.value) && t1[s.value].no == ParentFrom(disk, d, comps).value
      && name == comps[|comps| - 1]
    else s.None? && SameRefs(t0, t1)
  }

  /** The walk goes on from `d2` with `rest` to go. */
  ghost predicate Moved(disk: Disk, d: nat, comps: seq<Name>, d2: nat, rest: seq<Name>) {
    && comps != [] && rest == comps[1..] && rest != []
    && ParentFrom(disk, d, comps) == ParentFrom(disk, d2, rest)
  }

  /** From `d2`, with `rest` to go, the walk comes to the same place as from `d` with `comps`. */
  ghost predicate SameGoal(disk: Disk, d: nat, comps: seq<Name>, d2: nat, rest: seq<Name>) {
    && comps != [] && rest != [] && rest[|rest| - 1] == comps[|comps| - 1]
    && ParentFrom(disk, d, comps) == ParentFrom(disk, d2, rest)
  }

  ghost predicate Names(comps: seq<Name>) {
    forall n :: n in comps ==> IsName(n)
  }

  lemma ExitNone(t0: Table, t1: Table, disk: Disk, d: nat, comps: seq<Name>, name: Name)
    requires SameRefs(t0, t1) && d < INUM && (comps == [] || DinodeAt(disk, d).typ != TYPE_DIR)
    ensures Arrived(t0, t1, disk, d, comps, None, name)
  {
    hide DinodeAt, ParentFrom, SameRefs, RefsPlus, Contents, WellDir, DirMap;
    if comps != [] {
      assert comps == [comps[0]] + comps[1..];
      ParentStep(disk, d, comps, comps[1..], comps[0]);
    }
  }

  lemma ExitHere(t0: Table, t1: Table, disk: Disk, d: nat, comps: seq<Name>, ip: nat, name: Name)
    requires RefsPlus(t0, t1, ip) && d < INUM && DinodeAt(disk, d).typ == TYPE_DIR && t1[ip].no == d
    requires comps == [name]
    ensures Arrived(t0, t1, disk, d, comps, Some(ip), name)
  {
    hide DinodeAt, ParentFrom, RefsPlus, Contents, WellDir, DirMap;
    assert comps == [name] + [];
    ParentStep(disk, d, comps, [], name);
  }

  lemma ExitBelow(t0: Table, t1: Table, disk: Disk, d: nat, comps: seq<Name>, rest: seq<Name>, name: Name,
          next: Option<nat>)
    requires d < INUM && DinodeAt(disk, d).typ == TYPE_DIR && WellDir(Contents(disk, d))
    requires comps == [name] + rest && rest != []
    requires Descended(t0, t1, DirMap(Contents(disk, d)), name, next)
    ensures next.None? ==> Arrived(t0, t1, disk, d, comps, None, name)
    ensures next.Some? ==> next.value < |t1| && RefsPlus(t0, t1, next.value) && Moved(disk, d, comps, t1[next.value].no, rest)
  {
    hide DinodeAt, ParentFrom, Contents, WellDir, DirMap;
    ParentStep(disk, d, comps, rest, name);
    assert comps[1..] == rest;
  }

  lemma NameIn(comps: seq<Name>, name: Name, rest: seq<Name>)
    requires Names(comps) && comps == [name] + rest
    ensures IsName(name) && (rest == [] ==> comps == [name])
  {
    assert comps[0] == name;
  }

  /** One turn of iopen_parent's loop, standing at slot `ip` with path `p` to go. */
  method WalkStep(fs: Fs, ip: nat, p: seq<byte>, ghost links: Links, ghost table0: Table)
    returns (done: bool, s: Option<nat>, name: Name, next: nat, rest: seq<byte>)
    requires FsOk(fs, links) && Names(Components(p)) && Room(table0, 2)
    requires ip < INODE_NUM && fs.table[ip].ref > 0 && Alive(fs.dev.blocks, Dead(fs.table), fs.table[ip].no)
    requires RefsPlus(table0, fs.table, ip)
    modifies fs`owner, fs`table, fs.inodes, fs.dev, fs.dev.sectors, fs.dev.cache
    ensures FsOk(fs, links) && fs.dev.blocks == old(fs.dev.blocks) && fs.owner == old(fs.owner)
    ensures Dead(fs.table) == Dead(old(fs.table))
    ensures done ==> Arrived(table0, fs.table, fs.dev.blocks, old(fs.table[ip].no), Components(p), s, name)
    ensures done && s.Some? ==> s.value < INODE_NUM && fs.table[s.value].ref > 0 && IsName(name)
    ensures done && s.Some? ==> Alive(fs.dev.blocks, Dead(fs.table), fs.table[s.value].no)
    ensures !done ==> next < INODE_NUM && fs.table[next].ref > 0 && RefsPlus(table0, fs.table, next)
    ensures !done ==> Alive(fs.dev.blocks, Dead(fs.table), fs.table[next].no)
    ensures !done ==> Moved(fs.dev.blocks, old(fs.table[ip].no), Components(p), fs.table[next].no, Components(rest))
    ensures !done ==> |rest| < |p|
  {
    hide DinodeAt, Separated, Device.Valid, Contents, Sized, WellDir, TableOk, DirMap, ParentFrom, TreeOk, Resolve,
      Dead, RefsPlus, SameRefs, Fs.Valid, Components, Room, FsOk, IsName;
    ghost var cur := fs.table[ip].no;
    hide Arrived, Moved, Descended, Names;
    ghost var disk, comps := fs.dev.blocks, Components(p);
    done, s, next, rest := true, None, 0, [];
    ActiveSlot(fs, links, ip);
    var isDir := fs.inodes[ip].dinode.typ == TYPE_DIR;
    var after, elem := SkipElem(p);
    name := elem;
    if after.None? || !isDir {
      GiveBack(fs, ip, links, table0);
      ExitNone(table0, fs.table, disk, cur, comps, name);
      return;
    }
    rest := after.value;
    NameIn(comps, name, Components(rest));
    if rest == [] {
      s := Some(ip);
      ExitHere(table0, fs.table, disk, cur, comps, ip, name);
    } else {
      var found := Descend(fs, ip, name, links, table0);
      ExitBelow(table0, fs.table, disk, cur, comps, Components(rest), name, found);
      if found.Some? {
        done, next := false, found.value;
      }
    }
  }

  /** The directory that holds the last component, opened; every other reference taken on the way is given back. */
  method IopenParent(fs: Fs, path: seq<byte>, cwd: nat, ghost links: Links) returns (s: Option<nat>, name: Name)
    requires FsOk(fs, links) && IsPath(path)
    requires CwdOk(fs.dev.blocks, fs.table, path, cwd)
    requires Room(fs.table, 2)
    modifies fs`owner, fs`table, fs.inodes, fs.dev, fs.dev.sectors, fs.dev.cache
    ensures FsOk(fs, links) && SameDisk(old(State(fs, links)), State(fs, links))
    ensures Arrived(old(fs.table), fs.table, fs.dev.blocks, Start(path, CwdNo(old(fs.table), cwd)), Components(path), s, name)
    ensures Dead(fs.table) == Dead(old(fs.table))
    ensures s.Some? ==> s.value < INODE_NUM && fs.table[s.value].ref > 0 && IsName(name)
    ensures s.Some? ==> Alive(fs.dev.blocks, Dead(fs.table), fs.table[s.value].no)
  {
    hide DinodeAt, Separated, Device.Valid, Contents, Sized, WellDir, TableOk, DirMap, ParentFrom, TreeOk, Resolve,
      Dead, RefsPlus, SameRefs, Fs.Valid, Components, Room, FsOk, IsName;
    ghost var disk, table, dead := fs.dev.blocks, fs.table, Dead(fs.table);
    ghost var comps := Components(path);
    ghost var start := Start(path, CwdNo(fs.table, cwd));
    ComponentsAreNames(path);
    var ip: nat := StartAt(fs, path, cwd, links);
    ghost var cur := start;
    var p := path;
    s, name := None, [];
    var done := false;
    while !done
      invariant FsOk(fs, links) && SameDisk(old(State(fs, links)), State(fs, links)) && Dead(fs.table) == dead
      invariant !done ==> ip < INODE_NUM && fs.table[ip].ref > 0 && RefsPlus(table, fs.table, ip)
      invariant !done ==> fs.table[ip].no == cur && Alive(disk, dead, cur) && Names(Components(p))
      invariant !done ==> (cur == start && p == path) || SameGoal(disk, start, comps, cur, Components(p))
      invariant done ==> Arrived(table, fs.table, disk, start, comps, s, name)
      invariant done && s.Some? ==> s.value < INODE_NUM && fs.table[s.value].ref > 0 && IsName(name)
      invariant done && s.Some? ==> Alive(disk, dead, fs.table[s.value].no)
      decreases !done, |p|
    {
      ghost var here := Components(p);
      var next, rest;
      done, s, name, next, rest := WalkStep(fs, ip, p, links, table);
      if !done {
        ip, p := next, rest;
        cur := fs.table[ip].no;
      }
    }
  }
}
