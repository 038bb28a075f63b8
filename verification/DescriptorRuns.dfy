/** Runs of the calls on descriptors and paths: what becomes of a file that is removed while it is held. */
module DescriptorRuns {
  import opened Options
  import opened Bytes
  import opened BlockDevice
  import opened FsLayout
  import opened FileSystem
  import opened Directory
  import opened Tree
  import opened Path
  import opened PathOps
  import opened Walk
  import opened Open
  import opened Remove
  import opened Descriptors
  import FT = FileTable

  datatype Call =
    | Boot(p: nat)
    | OpenCall(p: nat, path: seq<byte>, mode: FT.Mode)
    | CloseCall(p: nat, fd: int)
    | DupCall(p: nat, fd: int)
    | ReadCall(p: nat, fd: int, size: u32, dev: seq<byte>)
    | WriteCall(p: nat, fd: int, buf: seq<byte>, answer: int)
    | SeekCall(p: nat, fd: int, off: u32, whence: nat)
    | Chdir(p: nat, path: seq<byte>)
    | ForkCall(p: nat, c: nat)
    | ExitCall(p: nat)
    | UnlinkCall(p: nat, path: seq<byte>)

  /** What a call needs: a process to make it, and what the code asks of its callers. */
  ghost predicate Can(w: World, e: Call) {
    match e
    case Boot(p) => p < |w.procs| && !w.procs[p].alive && Room(w.fs.table, 2)
    case OpenCall(p, path, mode) => MayOpen(w, p, path) && (mode.create ==> CanCreate(w.fs.disk, w.fs.owner))
    case CloseCall(p, _) => Living(w, p)
    case DupCall(p, _) => Living(w, p)
    case ReadCall(p, fd, size, _) => CanRead(w, p, fd, size)
    case WriteCall(p, fd, buf, _) => CanWrite(w, p, fd, |buf|)
    case SeekCall(p, _, _, whence) => Living(w, p) && whence <= 2
    case Chdir(p, path) => MayOpen(w, p, path)
    case ForkCall(p, c) => Living(w, p) && w.procs[p].cwd.Some? && c < |w.procs| && !w.procs[c].alive
    case ExitCall(p) => Living(w, p)
    case UnlinkCall(p, path) => MayOpen(w, p, path)
  }

  /** What a call does. */
  ghost predicate Effect(w: World, e: Call, w2: World) {
    match e
    case Boot(p) => Booted(w, w2, p)
    case OpenCall(p, path, mode) => exists r, m, s :: OpenedFd(w, w2, p, path, mode, r, m, s)
    case CloseCall(p, fd) => exists r :: ClosedFd(w, w2, p, fd, r)
    case DupCall(p, fd) => exists r :: Duplicated(w, w2, p, fd, r)
    case ReadCall(p, fd, size, dev) => exists r, buf :: ReadFd(w, w2, p, fd, size, dev, r, buf)
    case WriteCall(p, fd, buf, answer) => exists r :: WroteFd(w, w2, p, fd, buf, answer, r)
    case SeekCall(p, fd, off, whence) => exists r :: SoughtFd(w, w2, p, fd, off, whence, r)
    case Chdir(p, path) => exists r, m, s :: ChangedDir(w, w2, p, path, r, m, s)
    case ForkCall(p, c) => Forked(w, w2, p, c)
    case ExitCall(p) => Exited(w, w2, p)
    case UnlinkCall(p, path) => exists r :: UnlinkedPath(w, w2, p, path, r)
  }

  /** The invariant of the file system, with every reference accounted for. */
  ghost predicate WorldOk(w: World) {
    && TableOk(w.fs.table, w.fs.disk) && (forall i :: 0 <= i < INUM ==> Sized(w.fs.disk, i))
    && Separated(w.fs.disk, w.fs.owner) && TreeOk(w.fs.disk, Dead(w.fs.table), w.fs.links)
    && exists others :: FT.FilesOk(w.files, w.fs, others) && Held(w.procs, w.files, others)
  }

  ghost predicate Next(w: World, e: Call, w2: World) {
    WorldOk(w) && WorldOk(w2) && Can(w, e) && Effect(w, e, w2)
  }

  lemma WorldIsOk(d: Descriptors)
    requires d.Valid()
    ensures WorldOk(d.Now()) && d.procs.Length == PROC_NUM
  {
    hide DinodeAt, Separated, Sized, TreeOk, FT.FilesOk, Held, Device.Valid;
  }

  /** Whatever a process calls, the kernel does it, and makes one step of a run. */
  method Handle(d: Descriptors, e: Call)
    requires d.Valid() && Can(d.Now(), e)
    modifies d.procs, d.ft`others, d.ft`links, d.ft.files, d.ft.fs`owner, d.ft.fs`table, d.ft.fs.inodes, d.ft.fs.dev, d.ft.fs.dev.sectors, d.ft.fs.dev.cache
    ensures d.Valid() && Next(old(d.Now()), e, d.Now())
  {
    hide Descriptors.Valid, WorldOk, Room, MayOpen, CanCreate, CanRead, CanWrite, Booted, OpenedFd, ClosedFd, Duplicated,
      ReadFd, WroteFd, SoughtFd, ChangedDir, Forked, Exited, UnlinkedPath;
    WorldIsOk(d);
    match e {
      case Boot(p) => d.BootFiles(p);
      case OpenCall(p, path, mode) =>
        var r;
        ghost var m, s;
        r, m, s := d.SysOpen(p, path, mode);
      case CloseCall(p, fd) => var r := d.SysClose(p, fd);
      case DupCall(p, fd) => var r := d.SysDup(p, fd);
      case ReadCall(p, fd, size, dev) => var r, buf := d.SysRead(p, fd, size, dev);
      case WriteCall(p, fd, buf, answer) => var r := d.SysWrite(p, fd, buf, answer);
      case SeekCall(p, fd, off, whence) => var r := d.SysLseek(p, fd, off, whence);
      case Chdir(p, path) =>
        var r;
        ghost var m, s;
        r, m, s := d.SysChdir(p, path);
      case ForkCall(p, c) => d.ForkFiles(p, c);
      case ExitCall(p) => d.ExitFiles(p);
      case UnlinkCall(p, path) => var r := d.SysUnlink(p, path);
    }
    WorldIsOk(d);
  }

  // ---------------------------------------------------------------- who holds an inode

  /** Process p has inode i as its current directory, or open through descriptor k. */
  ghost predicate HoldsFd(w: World, p: nat, k: nat, i: nat) {
    && Living(w, p) && k < |w.procs[p].fds| && w.procs[p].fds[k].Some? && w.procs[p].fds[k].value < |w.files|
    && var x := w.files[w.procs[p].fds[k].value];
    x.typ == TYPE_FILE && x.inode < |w.fs.table| && w.fs.table[x.inode].no == i
  }

  ghost predicate HoldsCwd(w: World, p: nat, i: nat) {
    && Living(w, p) && w.procs[p].cwd.Some? && w.procs[p].cwd.value < |w.fs.table|
    && w.fs.table[w.procs[p].cwd.value].no == i
  }

  /** Some live process holds the inode. */
  ghost predicate IsHeld(w: World, i: nat) {
    exists p, k :: Holds(w, p, k, i)
  }

  ghost predicate Holds(w: World, p: nat, k: nat, i: nat) {
    HoldsCwd(w, p, i) || HoldsFd(w, p, k, i)
  }

  lemma {:induction false} SomeUser(files: seq<FT.File>, s: nat) returns (f: nat)
    requires FT.Users(files, s) > 0
    ensures f < |files| && FT.OnSlot(files[f], s)
  {
    if FT.OnSlot(files[0], s) {
      f := 0;
    } else {
      f := SomeUser(files[1..], s);
      f := f + 1;
    }
  }

  lemma {:induction false} SomeFd(fds: seq<Option<nat>>, f: nat) returns (k: nat)
    requires Count(fds, f) > 0
    ensures k < |fds| && fds[k] == Some(f)
  {
    if fds[0] == Some(f) {
      k := 0;
    } else {
      k := SomeFd(fds[1..], f);
      k := k + 1;
    }
  }

  lemma {:induction false} SomeProc(procs: seq<Handles>, x: nat) returns (p: nat)
    requires FdRefs(procs, x) > 0
    ensures p < |procs| && procs[p].alive && Count(procs[p].fds, x) > 0
  {
    if FdsOf(procs[0], x) > 0 {
      p := 0;
    } else {
      p := SomeProc(procs[1..], x);
      p := p + 1;
    }
  }

  lemma {:induction false} SomeCwd(procs: seq<Handles>, s: nat) returns (p: nat)
    requires CwdRefs(procs, s) > 0
    ensures p < |procs| && procs[p].alive && procs[p].cwd == Some(s)
  {
    if CwdOf(procs[0], s) > 0 {
      p := 0;
    } else {
      p := SomeCwd(procs[1..], s);
      p := p + 1;
    }
  }

  /** An inode is active just when some live process holds it. */
  lemma ActiveIffHeld(w: World, i: nat)
    requires WorldOk(w)
    ensures IsHeld(w, i) <==> exists s :: 0 <= s < |w.fs.table| && w.fs.table[s].ref > 0 && w.fs.table[s].no == i
  {
    hide DinodeAt, Sized, Separated, TreeOk, FT.KnownTypes, FT.NotDir;
    var others :| FT.FilesOk(w.files, w.fs, others) && Held(w.procs, w.files, others);
    if s :| 0 <= s < |w.fs.table| && w.fs.table[s].ref > 0 && w.fs.table[s].no == i {
      ActiveHeld(w, others, s);
    }
    if IsHeld(w, i) {
      var p, k :| Holds(w, p, k, i);
      HeldActive(w, others, p, k, i);
    }
  }

  lemma ActiveHeld(w: World, others: seq<nat>, s: nat)
    requires FT.FilesOk(w.files, w.fs, others) && Held(w.procs, w.files, others)
    requires s < |w.fs.table| && w.fs.table[s].ref > 0
    ensures IsHeld(w, w.fs.table[s].no)
  {
    hide FT.KnownTypes, FT.NotDir, HandlesOk;
    assert w.fs.table[s].ref == FT.Users(w.files, s) + others[s];
    if others[s] > 0 {
      var p := SomeCwd(w.procs, s);
      assert Holds(w, p, 0, w.fs.table[s].no);
    } else {
      var f := SomeUser(w.files, s);
      var p := SomeProc(w.procs, f);
      var k := SomeFd(w.procs[p].fds, f);
      assert Holds(w, p, k, w.fs.table[s].no);
    }
  }

  lemma HeldActive(w: World, others: seq<nat>, p: nat, k: nat, i: nat)
    requires FT.FilesOk(w.files, w.fs, others) && Held(w.procs, w.files, others)
    requires Holds(w, p, k, i)
    ensures exists s :: 0 <= s < |w.fs.table| && w.fs.table[s].ref > 0 && w.fs.table[s].no == i
  {
    hide FT.KnownTypes, FT.NotDir, FdRefs, CwdRefs;
    assert HandlesOk(w.procs[p]);
    if HoldsCwd(w, p, i) {
      HeldInUse(w.procs, w.files, others, p, 0);
      assert w.fs.table[w.procs[p].cwd.value].ref > 0;
    } else {
      HeldInUse(w.procs, w.files, others, p, k);
      var x := w.files[w.procs[p].fds[k].value];
      FT.UsersAtLeast(w.files, w.procs[p].fds[k].value, x.inode);
      assert w.fs.table[x.inode].ref > 0;
    }
  }

  // ---------------------------------------------------------------- what becomes of a removed inode

  /** The call writes to inode i. */
  ghost predicate WritesTo(w: World, e: Call, i: nat) {
    && e.WriteCall? && Living(w, e.p)
    && var f := FdOf(w.procs[e.p], e.fd);
    && f.Some? && f.value < |w.files|
    && var x := w.files[f.value];
    && x.typ == TYPE_FILE && x.inode < |w.fs.table| && w.fs.table[x.inode].no == i
  }

  /** Inode i, removed, is still there with its bytes, or it is free now, and the blocks freed are exactly those of the
      inodes that went. */
  ghost predicate Fate(a: FsState, b: FsState, i: nat) {
    && i < INUM
    && if i in Dead(b.table) then SameFile(a.disk, b.disk, i)
       else DinodeAt(b.disk, i) == ZeroDinode && Freed(a, b)
  }

  ghost predicate Freed(a: FsState, b: FsState) {
    b.owner == FT.Left(a.owner, FT.Gone(a, b)) && forall j :: j in FT.Gone(a, b) ==> j < INUM && DinodeAt(b.disk, j) == ZeroDinode
  }

  // ---------------------------------------------------------------- call by call

  lemma SameDead(a: FsState, b: FsState, i: nat)
    requires i < INUM && i in Dead(b.table) && (b.disk == a.disk || SameFile(a.disk, b.disk, i))
    ensures Fate(a, b, i)
  {
    hide DinodeAt, PosBlk, Dead;
    SameFilesRefl(a.disk, i);
  }

  lemma DroppedFate(a: FsState, b: FsState, i: nat)
    requires i < INUM && i in Dead(a.table) && FT.Dropped(a, b) && forall j :: j in Dead(a.table) ==> j < INUM
    ensures Fate(a, b, i)
  {
    hide DinodeAt, PosBlk, Dead, SameFile;
  }

  /** Inodes that are removed are allocated and have an active slot. */
  lemma DeadTyped(table: Table, disk: Disk)
    requires TableOk(table, disk)
    ensures forall i :: i in Dead(table) ==> 0 < i < INUM && DinodeAt(disk, i).typ != TYPE_NONE
  {
    hide DinodeAt;
  }

  /** A path from a directory that is still linked leads to inodes that are. */
  lemma {:induction false} ResolveAlive(disk: Disk, dead: set<nat>, links: Links, d: nat, comps: seq<Name>)
    requires TreeOk(disk, dead, links) && Alive(disk, dead, d) && Resolve(disk, d, comps).Some?
    ensures Alive(disk, dead, Resolve(disk, d, comps).value)
    decreases |comps|
  {
    hide DinodeAt, Contents, WellDir, DirMap, TreeOk;
    if comps != [] {
      BoundAlive(disk, dead, links, d, comps[0]);
      ResolveAlive(disk, dead, links, DirMap(Contents(disk, d))[comps[0]], comps[1..]);
    }
  }

  lemma StartAlive(w: World, p: nat, path: seq<byte>)
    requires WorldOk(w) && MayOpen(w, p, path)
    ensures Alive(w.fs.disk, Dead(w.fs.table), Start(path, CwdNo(w.fs.table, w.procs[p].cwd.value)))
  {
    hide DinodeAt, Separated, Sized, DirOk, LinkOk, Dead, FT.FilesOk, Held, Room;
  }

  lemma OpenedFate(a: FsState, m: FsState, path: seq<byte>, cwd: nat, typ: u32, s: Option<nat>, i: nat)
    requires OpenedPath(a, m, path, cwd, typ, s) && TreeOk(a.disk, Dead(a.table), a.links)
    requires Alive(a.disk, Dead(a.table), Start(path, cwd))
    requires i in Dead(a.table) && i < INUM && DinodeAt(a.disk, i).typ != TYPE_NONE
    ensures SameFile(a.disk, m.disk, i) && Dead(m.table) == Dead(a.table)
    ensures s.Some? ==> s.value < |m.table| && m.table[s.value].no != i
  {
    hide DinodeAt, PosBlk, Contents, Resolve, Components, Dead, TreeOk, Made;
    FT.OpenedRefs(a, m, path, cwd, typ, s);
    if s.Some? {
      DeadPlus(a.table, m.table, s.value);
    } else {
      DeadSame(a.table, m.table);
    }
    SameFilesRefl(a.disk, i);
    var comps, start := Components(path), Start(path, cwd);
    if comps == [] {
      RootAlive(a);
    } else if Resolve(a.disk, start, comps).Some? {
      ResolveAlive(a.disk, Dead(a.table), a.links, start, comps);
    } else if typ != TYPE_NONE && IsDir(a.disk, ParentFrom(a.disk, start, comps)) {
      ResolveAlive(a.disk, Dead(a.table), a.links, start, comps[..|comps| - 1]);
      MadeFate(a, m, ParentFrom(a.disk, start, comps).value, comps[|comps| - 1], typ, s, i);
    }
  }

  lemma RootAlive(a: FsState)
    requires TreeOk(a.disk, Dead(a.table), a.links)
    ensures ROOT !in Dead(a.table)
  {
  }

  lemma MadeFate(a: FsState, m: FsState, d: nat, name: Name, typ: u32, s: Option<nat>, i: nat)
    requires OpenedNew(a, m, s, d, name, typ) && i < INUM && i != d && DinodeAt(a.disk, i).typ != TYPE_NONE
    ensures SameFile(a.disk, m.disk, i) && m.table[s.value].no != i
  {
    hide DinodeAt, PosBlk, Contents, EntIno, EntName, NewDir, SameFile, Bound, SameSlot;
    var off :| Made(a, m, d, name, m.table[s.value].no, typ, off);
  }

  lemma OpenFate(w: World, w2: World, p: nat, path: seq<byte>, mode: FT.Mode, r: int, m: FsState, s: Option<nat>, i: nat)
    requires WorldOk(w) && MayOpen(w, p, path) && OpenedFd(w, w2, p, path, mode, r, m, s)
    requires i in Dead(w.fs.table) && i < INUM && DinodeAt(w.fs.disk, i).typ != TYPE_NONE
    ensures Fate(w.fs, w2.fs, i)
  {
    hide DinodeAt, PosBlk, Dead, WorldOk, MayOpen, OpenedPath, RefsPlus, SameRefs, FT.Refused, FT.FileOf;
    OkTree(w);
    StartAlive(w, p, path);
    if w2 == w {
      SameDead(w.fs, w2.fs, i);
    } else {
      var cwd := CwdNo(w.fs.table, w.procs[p].cwd.value);
      OpenedFate(w.fs, m, path, cwd, FT.TypeFor(mode), s, i);
      AttachedFate(w, w2, mode, m, s, if r == -1 then None else FdOf(w2.procs[p], FirstFree(w.procs[p].fds, 0)), i);
    }
  }

  lemma OkTree(w: World)
    requires WorldOk(w)
    ensures TreeOk(w.fs.disk, Dead(w.fs.table), w.fs.links) && TableOk(w.fs.table, w.fs.disk)
    ensures forall i :: 0 <= i < INUM ==> Sized(w.fs.disk, i)
  {
    hide DinodeAt, Separated, Sized, TreeOk, FT.FilesOk, Held;
  }

  lemma AttachedFate(w: World, w2: World, mode: FT.Mode, m: FsState, s: Option<nat>, f: Option<nat>, i: nat)
    requires FT.Fopened(w.fs, m, w2.fs, s, mode, w.files, w2.files, f) && i < INUM && i in Dead(w.fs.table)
    requires SameFile(w.fs.disk, m.disk, i) && (s.Some? ==> s.value < |m.table| && m.table[s.value].no != i)
    ensures Fate(w.fs, w2.fs, i)
  {
    hide DinodeAt, PosBlk, Dead, RefsPlus, SameRefs, FT.Refused, FT.FileOf, FT.SameOpen, SameFile;
    if SameRefs(w.fs.table, w2.fs.table) {
      DeadSame(w.fs.table, w2.fs.table);
    } else {
      DeadPlus(w.fs.table, w2.fs.table, s.value);
    }
    if w2.fs.disk != m.disk {
      SameFileTrans(w.fs.disk, m.disk, w2.fs.disk, i);
    }
    SameDead(w.fs, w2.fs, i);
  }

  lemma ChdirFate(w: World, w2: World, p: nat, path: seq<byte>, r: int, m: FsState, s: Option<nat>, i: nat)
    requires WorldOk(w) && MayOpen(w, p, path) && ChangedDir(w, w2, p, path, r, m, s)
    requires i in Dead(w.fs.table) && i < INUM && DinodeAt(w.fs.disk, i).typ != TYPE_NONE
    ensures Fate(w.fs, w2.fs, i)
  {
    hide DinodeAt, PosBlk, Dead, WorldOk, MayOpen, OpenedPath, RefsPlus, SameRefs, FT.Closed, FT.Dropped, IsDir;
    OkTree(w);
    StartAlive(w, p, path);
    var cwd := CwdNo(w.fs.table, w.procs[p].cwd.value);
    OpenedFate(w.fs, m, path, cwd, TYPE_NONE, s, i);
    OnlyOpened(w.fs, m, path, cwd, s);
    DeadTyped(w.fs.table, w.fs.disk);
    if r == 0 {
      FT.ClosedDrops(m, w2.fs, w.procs[p].cwd.value);
      DroppedFate(m, w2.fs, i);
      assert FT.Gone(m, w2.fs) == FT.Gone(w.fs, w2.fs);
    } else {
      DeadSame(w.fs.table, w2.fs.table);
      SameDead(w.fs, w2.fs, i);
    }
  }

  lemma UnlinkFate(w: World, w2: World, p: nat, path: seq<byte>, r: int, i: nat)
    requires WorldOk(w) && MayOpen(w, p, path) && UnlinkedPath(w, w2, p, path, r)
    requires i in Dead(w.fs.table) && i < INUM && DinodeAt(w.fs.disk, i).typ != TYPE_NONE
    ensures Fate(w.fs, w2.fs, i)
  {
    hide DinodeAt, PosBlk, Dead, WorldOk, MayOpen, SameRefs, RemovableIn, Unlinked, Resolve, Components, TreeOk;
    OkTree(w);
    StartAlive(w, p, path);
    var start, comps := Start(path, CwdNo(w.fs.table, w.procs[p].cwd.value)), Components(path);
    if Removable(w.fs.disk, start, comps) {
      var d := ParentFrom(w.fs.disk, start, comps).value;
      ResolveAlive(w.fs.disk, Dead(w.fs.table), w.fs.links, start, comps[..|comps| - 1]);
      RemovedFate(w.fs, w2.fs, d, comps[|comps| - 1], i);
    } else {
      DeadSame(w.fs.table, w2.fs.table);
      SameDead(w.fs, w2.fs, i);
    }
  }

  lemma RemovedFate(a: FsState, b: FsState, d: nat, name: Name, i: nat)
    requires TreeOk(a.disk, Dead(a.table), a.links) && LiveDir(a.disk, Dead(a.table), d)
    requires RemovableIn(a.disk, d, name) && UnlinkedName(a, b, d, name) && i in Dead(a.table) && i < INUM
    ensures Fate(a, b, i)
  {
    hide DinodeAt, PosBlk, Dead, RemovableFile, TreeOk, WellDir, DirMap, Contents, FreedFile;
    BoundAlive(a.disk, Dead(a.table), a.links, d, name);
    MarkedDead(a.table, b.table, DirMap(Contents(a.disk, d))[name], i);
    SameDead(a, b, i);
  }

  lemma MarkedDead(t0: Table, t1: Table, t: nat, i: nat)
    requires MarkedRefs(t0, t1, t) && i in Dead(t0)
    ensures i in Dead(t1)
  {
    var s :| 0 <= s < |t0| && t0[s].ref > 0 && t0[s].del && t0[s].no == i;
    assert MarkedSlot(t0[s], t1[s], t);
  }

  lemma CloseFate(w: World, w2: World, p: nat, fd: int, r: int, i: nat)
    requires WorldOk(w) && ClosedFd(w, w2, p, fd, r) && i in Dead(w.fs.table)
    ensures Fate(w.fs, w2.fs, i)
  {
    hide DinodeAt, PosBlk, Dead, WorldOk, FT.Closed, FT.Dropped;
    OkTree(w);
    DeadTyped(w.fs.table, w.fs.disk);
    if w2.fs != w.fs {
      FT.ClosedDrops(w.fs, w2.fs, w.files[FdOf(w.procs[p], fd).value].inode);
      DroppedFate(w.fs, w2.fs, i);
    } else {
      SameDead(w.fs, w2.fs, i);
    }
  }

  lemma WriteFate(w: World, w2: World, p: nat, fd: int, buf: seq<byte>, answer: int, r: int, i: nat)
    requires WroteFd(w, w2, p, fd, buf, answer, r) && i in Dead(w.fs.table) && i < INUM && Living(w, p)
    requires !WritesTo(w, WriteCall(p, fd, buf, answer), i)
    ensures Fate(w.fs, w2.fs, i)
  {
    hide DinodeAt, PosBlk, Dead, SameRefs, Contents, Splice, SameFile;
    if w2.fs != w.fs {
      DeadSame(w.fs.table, w2.fs.table);
    }
    SameDead(w.fs, w2.fs, i);
  }

  /** A removed inode, over one call that does not write to it: it is there with its bytes, or it is freed. */
  lemma StepFate(w: World, e: Call, w2: World, i: nat)
    requires Next(w, e, w2) && i in Dead(w.fs.table) && !WritesTo(w, e, i)
    ensures Fate(w.fs, w2.fs, i)
  {
    hide DinodeAt, PosBlk, Dead, WorldOk, Booted, OpenedFd, ClosedFd, Duplicated, ReadFd, WroteFd, SoughtFd, ChangedDir,
      Forked, Exited, UnlinkedPath, MayOpen, CanRead, CanWrite, CanCreate, Room, WritesTo, Fate;
    OkTree(w);
    DeadTyped(w.fs.table, w.fs.disk);
    match e
    case OpenCall(p, path, mode) =>
      var r, m, s :| OpenedFd(w, w2, p, path, mode, r, m, s);
      OpenFate(w, w2, p, path, mode, r, m, s, i);
    case CloseCall(p, fd) =>
      var r :| ClosedFd(w, w2, p, fd, r);
      CloseFate(w, w2, p, fd, r, i);
    case WriteCall(p, fd, buf, answer) =>
      var r :| WroteFd(w, w2, p, fd, buf, answer, r);
      WriterLives(w, p, fd, |buf|);
      WriteFate(w, w2, p, fd, buf, answer, r, i);
    case Chdir(p, path) =>
      var r, m, s :| ChangedDir(w, w2, p, path, r, m, s);
      ChdirFate(w, w2, p, path, r, m, s, i);
    case UnlinkCall(p, path) =>
      var r :| UnlinkedPath(w, w2, p, path, r);
      UnlinkFate(w, w2, p, path, r, i);
    case _ => OtherFate(w, e, w2, i);
  }

  lemma WriterLives(w: World, p: nat, fd: int, n: nat)
    requires CanWrite(w, p, fd, n)
    ensures Living(w, p)
  {
    hide FT.RoomToWrite;
  }

  lemma OtherFate(w: World, e: Call, w2: World, i: nat)
    requires Effect(w, e, w2) && i in Dead(w.fs.table) && forall j :: j in Dead(w.fs.table) ==> j < INUM
    requires e.Boot? || e.DupCall? || e.ReadCall? || e.SeekCall? || e.ForkCall? || e.ExitCall?
    ensures Fate(w.fs, w2.fs, i)
  {
    hide DinodeAt, PosBlk, Dead, RefsPlus, FT.Dropped, FT.ReadOf, FT.Sought, Fate;
    if e.ExitCall? {
      DroppedFate(w.fs, w2.fs, i);
    } else {
      if e.Boot? {
        DeadPlus(w.fs.table, w2.fs.table, w2.procs[e.p].cwd.value);
      } else if e.ForkCall? {
        DeadPlus(w.fs.table, w2.fs.table, w.procs[e.p].cwd.value);
      }
      SameDead(w.fs, w2.fs, i);
    }
  }

  // ---------------------------------------------------------------- the theorems

  lemma ActiveTyped(w: World, i: nat)
    requires WorldOk(w) && IsHeld(w, i)
    ensures i < INUM && DinodeAt(w.fs.disk, i).typ != TYPE_NONE
  {
    hide DinodeAt, WorldOk, IsHeld;
    ActiveIffHeld(w, i);
    OkTree(w);
  }

  lemma DeadHeld(w: World, i: nat)
    requires WorldOk(w) && i in Dead(w.fs.table)
    ensures IsHeld(w, i)
  {
    hide DinodeAt, WorldOk, IsHeld;
    ActiveIffHeld(w, i);
  }

  /** A successful unlink of an inode that somebody holds leaves it with its bytes; of one that nobody holds, frees it and
      exactly its blocks. */
  lemma UnlinkRemoves(w: World, w2: World, p: nat, path: seq<byte>)
    requires WorldOk(w) && WorldOk(w2) && MayOpen(w, p, path) && UnlinkedPath(w, w2, p, path, 0)
    ensures var t := Resolve(w.fs.disk, Start(path, CwdNo(w.fs.table, w.procs[p].cwd.value)), Components(path));
            && t.Some? && t.value < INUM
            && if IsHeld(w, t.value) then
                 t.value in Dead(w2.fs.table) && SameFile(w.fs.disk, w2.fs.disk, t.value) && w2.fs.owner == w.fs.owner
               else FreedFile(w2.fs.disk, w.fs.owner, w2.fs.owner, t.value) && !IsHeld(w2, t.value)
  {
    hide DinodeAt, PosBlk, Dead, WorldOk, MayOpen, SameRefs, Resolve, Components, SameFile, Contents, WellDir, DirMap, IsHeld;
    var start, comps := Start(path, CwdNo(w.fs.table, w.procs[p].cwd.value)), Components(path);
    var d, name := ParentFrom(w.fs.disk, start, comps).value, comps[|comps| - 1];
    var t := DirMap(Contents(w.fs.disk, d))[name];
    ResolveLast(w.fs.disk, start, comps);
    ActiveIffHeld(w, t);
    ActiveIffHeld(w2, t);
    if IsOpen(w.fs.table, t) {
      var u :| 0 <= u < |w.fs.table| && w.fs.table[u].ref > 0 && w.fs.table[u].no == t;
      OpenMarked(w.fs.table, w2.fs.table, t, u);
    } else {
      ZeroTyped(w2.fs.disk, t);
      if IsHeld(w2, t) {
        ActiveTyped(w2, t);
      }
    }
  }

  lemma ZeroTyped(disk: Disk, i: nat)
    requires i < INUM
    ensures DinodeAt(disk, i) == ZeroDinode ==> DinodeAt(disk, i).typ == TYPE_NONE
  {
    hide DinodeAt;
  }

  lemma OpenMarked(t0: Table, t1: Table, t: nat, u: nat)
    requires MarkedRefs(t0, t1, t) && u < |t0| && t0[u].ref > 0 && t0[u].no == t
    ensures t in Dead(t1)
  {
    assert MarkedSlot(t0[u], t1[u], t);
  }

  /** One call, not a write to it, and a removed inode: while some live process holds it it keeps its number and its bytes;
      the call with which nobody holds it any more frees it, and the blocks freed are exactly those of the inodes that
      nobody holds any more. */
  lemma StepDeletion(w: World, e: Call, w2: World, i: nat)
    requires Next(w, e, w2) && i in Dead(w.fs.table) && !WritesTo(w, e, i)
    ensures i < INUM
    ensures IsHeld(w2, i) ==>
              i in Dead(w2.fs.table) && SameFile(w.fs.disk, w2.fs.disk, i) && Contents(w2.fs.disk, i) == Contents(w.fs.disk, i)
    ensures !IsHeld(w2, i) ==> DinodeAt(w2.fs.disk, i) == ZeroDinode && Freed(w.fs, w2.fs)
  {
    hide DinodeAt, PosBlk, Dead, WorldOk, Can, Effect, IsHeld, Contents, SameFile, WritesTo, Freed;
    OkTree(w);
    DeadTyped(w.fs.table, w.fs.disk);
    StepFate(w, e, w2, i);
    if i in Dead(w2.fs.table) {
      DeadHeld(w2, i);
      SameFileSame(w.fs.disk, w2.fs.disk, i);
    } else {
      ZeroTyped(w2.fs.disk, i);
      if IsHeld(w2, i) {
        ActiveTyped(w2, i);
      }
    }
  }

  /** A run of calls. */
  ghost predicate Run(ws: seq<World>, es: seq<Call>) {
    |ws| == |es| + 1 && WorldOk(ws[0]) && forall k, l :: 0 <= k < |es| && l == k + 1 ==> Next(ws[k], es[k], ws[l])
  }

  /** Over any run: as long as some live process holds a removed inode and nobody writes to it, it keeps its number and its
      bytes. */
  lemma {:induction false} RunKeepsHeld(ws: seq<World>, es: seq<Call>, lo: nat, hi: nat, i: nat)
    requires Run(ws, es) && lo <= hi < |ws| && i in Dead(ws[lo].fs.table)
    requires forall k :: lo < k <= hi ==> IsHeld(ws[k], i)
    requires forall k :: lo <= k < hi ==> !WritesTo(ws[k], es[k], i)
    ensures i < INUM && i in Dead(ws[hi].fs.table)
    ensures DinodeAt(ws[hi].fs.disk, i) == DinodeAt(ws[lo].fs.disk, i) && DinodeAt(ws[hi].fs.disk, i).typ != TYPE_NONE
    ensures Contents(ws[hi].fs.disk, i) == Contents(ws[lo].fs.disk, i)
    decreases hi
  {
    hide DinodeAt, PosBlk, Dead, WorldOk, Can, Effect, IsHeld, Contents, WritesTo, Freed;
    if lo == hi {
      RunOk(ws, es, lo);
    } else {
      RunKeepsHeld(ws, es, lo, hi - 1, i);
      assert Next(ws[hi - 1], es[hi - 1], ws[hi]);
      StepDeletion(ws[hi - 1], es[hi - 1], ws[hi], i);
    }
  }

  /** The first call of a run after which nobody holds it frees it, with exactly its blocks. */
  lemma RunFreesLast(ws: seq<World>, es: seq<Call>, lo: nat, hi: nat, i: nat)
    requires Run(ws, es) && lo < hi < |ws| && i in Dead(ws[lo].fs.table)
    requires forall k :: lo < k < hi ==> IsHeld(ws[k], i)
    requires forall k :: lo <= k < hi ==> !WritesTo(ws[k], es[k], i)
    requires !IsHeld(ws[hi], i)
    ensures i < INUM && DinodeAt(ws[hi].fs.disk, i) == ZeroDinode
    ensures forall b :: b in ws[hi].fs.owner <==>
              b in ws[hi - 1].fs.owner && ws[hi - 1].fs.owner[b].0 !in FT.Gone(ws[hi - 1].fs, ws[hi].fs)
    ensures i in FT.Gone(ws[hi - 1].fs, ws[hi].fs)
    ensures forall j :: j in FT.Gone(ws[hi - 1].fs, ws[hi].fs) ==> !IsHeld(ws[hi], j)
  {
    hide DinodeAt, PosBlk, Dead, WorldOk, Can, Effect, IsHeld, Contents, WritesTo;
    RunKeepsHeld(ws, es, lo, hi - 1, i);
    assert Next(ws[hi - 1], es[hi - 1], ws[hi]);
    StepDeletion(ws[hi - 1], es[hi - 1], ws[hi], i);
    if i in Dead(ws[hi].fs.table) {
      DeadHeld(ws[hi], i);
    }
    forall j | j in FT.Gone(ws[hi - 1].fs, ws[hi].fs)
      ensures !IsHeld(ws[hi], j)
    {
      ZeroTyped(ws[hi].fs.disk, j);
      if IsHeld(ws[hi], j) {
        ActiveTyped(ws[hi], j);
      }
    }
  }

  lemma RunOk(ws: seq<World>, es: seq<Call>, k: nat)
    requires Run(ws, es) && k < |ws|
    ensures WorldOk(ws[k]) && forall i :: i in Dead(ws[k].fs.table) ==> i < INUM && DinodeAt(ws[k].fs.disk, i).typ != TYPE_NONE
  {
    hide WorldOk, Can, Effect, DinodeAt, Dead;
    if k > 0 {
      assert Next(ws[k - 1], es[k - 1], ws[k]);
    }
    OkTree(ws[k]);
    DeadTyped(ws[k].fs.table, ws[k].fs.disk);
  }
}
