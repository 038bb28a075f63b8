/** What the modes of open come to, for a name in the current directory (fopen of kernel/src/file.c, by way of sys_open). */
module OpenModes {
  import opened Options
  import opened Bytes
  import opened BlockDevice
  import opened FsLayout
  import opened Directory
  import opened PathOps
  import opened Walk
  import opened Open
  import opened Descriptors
  import opened DescriptorRuns
  import opened FileLaws
  import opened PathStarts
  import PL = PathLaws
  import FT = FileTable

  /** There is a descriptor and a file to be had. */
  ghost predicate SomeFree(w: World, p: nat) {
    && p < |w.procs| && (exists k :: 0 <= k < |w.procs[p].fds| && w.procs[p].fds[k] == None)
    && exists f :: 0 <= f < |w.files| && w.files[f].ref == 0
  }

  /** The names of the directory that the process is in. */
  ghost function Here(w: World, p: nat): nat {
    if p < |w.procs| && w.procs[p].cwd.Some? then CwdNo(w.fs.table, w.procs[p].cwd.value) else 0
  }

  /** The call opened `name` of the current directory in this mode. */
  ghost predicate Opens(w: World, w2: World, p: nat, name: seq<byte>, mode: FT.Mode, r: int) {
    && SomeFree(w, p) && PlainName(name) && PL.DirAt(w.fs.disk, Here(w, p))
    && exists m, s :: OpenedFd(w, w2, p, name, mode, r, m, s)
  }

  /** The file of the new descriptor is at the start of inode t and can be read and written as the mode says. */
  ghost predicate StartsAt(w: World, p: nat, fd: int, t: nat, mode: FT.Mode) {
    && OnFile(w, p, fd) && InodeAt(w, p, fd) == t && FileAt(w, p, fd).offset == 0
    && FileAt(w, p, fd).readable == !mode.wronly && FileAt(w, p, fd).writable == (mode.wronly || mode.rdwr)
  }

  lemma SomeFirst(fds: seq<Option<nat>>, k: nat)
    requires k < |fds| && fds[k] == None
    ensures FirstFree(fds, 0) < |fds|
  {
  }

  /** What the call comes to. */
  lemma Parts(w: World, w2: World, p: nat, name: seq<byte>, mode: FT.Mode, r: int) returns (m: FsState, s: Option<nat>, f: Option<nat>)
    requires Opens(w, w2, p, name, mode, r)
    ensures OpenedPath(w.fs, m, name, Here(w, p), if !mode.create then TYPE_NONE else if mode.dir then TYPE_DIR else TYPE_FILE, s)
    ensures FT.Fopened(w.fs, m, w2.fs, s, mode, w.files, w2.files, f)
    ensures f.None? ==> r == -1
    ensures f.Some? ==> r >= 0 && p < |w2.procs| && FdOf(w2.procs[p], r) == f
    ensures Living(w, p) ==> Living(w2, p)
  {
    hide OpenedPath, FT.Fopened, PL.DirAt, FirstFree;
    m, s :| OpenedFd(w, w2, p, name, mode, r, m, s);
    var k :| 0 <= k < |w.procs[p].fds| && w.procs[p].fds[k] == None;
    SomeFirst(w.procs[p].fds, k);
    f := if r == -1 then None else FdOf(w2.procs[p], FirstFree(w.procs[p].fds, 0));
  }

  /** What a file that was opened refers to. */
  lemma Attached(w: World, w2: World, p: nat, mode: FT.Mode, m: FsState, s: Option<nat>, f: Option<nat>, r: int)
    requires FT.Fopened(w.fs, m, w2.fs, s, mode, w.files, w2.files, f) && s.Some? && Living(w2, p)
    requires f.Some? ==> FdOf(w2.procs[p], r) == f
    ensures s.value < |m.table| && m.table[s.value].no < INUM
    ensures var t := m.table[s.value].no;
            var typ := DinodeAt(m.disk, t).typ;
            && (f.Some? <==> !(typ == TYPE_FILE && mode.dir) && !(typ == TYPE_DIR && (mode.wronly || mode.rdwr || mode.trunc)))
            && (f.Some? && typ != TYPE_DEV ==> StartsAt(w2, p, r, t, mode))
            && if f.Some? && typ == TYPE_FILE && mode.trunc then
                 && Contents(w2.fs.disk, t) == [] && DinodeAt(w2.fs.disk, t).typ == TYPE_FILE
                 && forall j :: 0 <= j < INUM && j != t ==> SameFile(m.disk, w2.fs.disk, j)
               else w2.fs.disk == m.disk
  {
    hide DinodeAt, SameFile, Contents;
    var t := m.table[s.value].no;
    if f.Some? && DinodeAt(m.disk, t).typ == TYPE_FILE && mode.trunc {
      NoBytes(w2.fs.disk, t);
    }
  }

  /** A name that is bound: whether it is opened at all; a plain file opened to be emptied is empty; nothing else changes. */
  lemma OpensBound(w: World, w2: World, p: nat, name: seq<byte>, mode: FT.Mode, r: int)
    requires Opens(w, w2, p, name, mode, r) && Living(w, p) && Short(name) in PL.Names(w.fs.disk, Here(w, p))
    ensures var t := PL.Names(w.fs.disk, Here(w, p))[Short(name)];
            && t < INUM
            && var typ := DinodeAt(w.fs.disk, t).typ;
            && (r >= 0 <==> !(typ == TYPE_FILE && mode.dir) && !(typ == TYPE_DIR && (mode.wronly || mode.rdwr || mode.trunc)))
            && (r >= 0 && typ != TYPE_DEV ==> StartsAt(w2, p, r, t, mode))
            && if r >= 0 && typ == TYPE_FILE && mode.trunc then
                 && Contents(w2.fs.disk, t) == [] && DinodeAt(w2.fs.disk, t).typ == TYPE_FILE
                 && forall j :: 0 <= j < INUM && j != t ==> SameFile(w.fs.disk, w2.fs.disk, j)
               else w2.fs.disk == w.fs.disk
  {
    hide DinodeAt, SameFile, Contents, OpenedPath, FT.Fopened, PL.Names, StartsAt, SomeFree, PL.DirAt;
    var m, s, f := Parts(w, w2, p, name, mode, r);
    OpensHere(w.fs, m, name, Here(w, p), if !mode.create then TYPE_NONE else if mode.dir then TYPE_DIR else TYPE_FILE, s);
    Attached(w, w2, p, mode, m, s, f, r);
  }

  /** A name that is free, in a mode that does not create: it is not opened, and nothing changes. */
  lemma OpensNothing(w: World, w2: World, p: nat, name: seq<byte>, mode: FT.Mode, r: int)
    requires Opens(w, w2, p, name, mode, r) && !mode.create && Short(name) !in PL.Names(w.fs.disk, Here(w, p))
    ensures r == -1 && SameDisk(w.fs, w2.fs) && w2.procs == w.procs
  {
    hide OpenedPath, PL.Names, PL.DirAt, FirstFree;
    var k :| 0 <= k < |w.procs[p].fds| && w.procs[p].fds[k] == None;
    SomeFirst(w.procs[p].fds, k);
    var m, s :| OpenedFd(w, w2, p, name, mode, r, m, s);
    OpensHere(w.fs, m, name, Here(w, p), TYPE_NONE, s);
  }

  /** A name that is free, in a mode that creates: with O_DIR the directory has a new directory under the name, which is
      opened unless the mode asks to write to it or to empty it; without O_DIR it has a new plain file, opened and empty. */
  lemma OpensNew(w: World, w2: World, p: nat, name: seq<byte>, mode: FT.Mode, r: int) returns (t: nat)
    requires WorldOk(w2) && Opens(w, w2, p, name, mode, r) && Living(w, p) && mode.create && Short(name) !in PL.Names(w.fs.disk, Here(w, p))
    ensures t < INUM && DinodeAt(w.fs.disk, t).typ == TYPE_NONE
    ensures BindsMore(PL.Names(w.fs.disk, Here(w, p)), PL.Names(w2.fs.disk, Here(w, p)), Short(name), t)
    ensures DinodeAt(w2.fs.disk, t).typ == if mode.dir then TYPE_DIR else TYPE_FILE
    ensures !mode.dir ==> r >= 0 && Contents(w2.fs.disk, t) == []
    ensures mode.dir ==> (r >= 0 <==> !mode.wronly && !mode.rdwr && !mode.trunc)
    ensures r >= 0 ==> StartsAt(w2, p, r, t, mode)
  {
    hide DinodeAt, SameFile, Contents, OpenedPath, FT.Fopened, PL.Names, StartsAt, SomeFree, PL.DirAt, BindsMore, OpenedFd, WorldOk, Sized;
    var m, s, f := Parts(w, w2, p, name, mode, r);
    var typ := if mode.dir then TYPE_DIR else TYPE_FILE;
    OpensHere(w.fs, m, name, Here(w, p), typ, s);
    Attached(w, w2, p, mode, m, s, f, r);
    t := m.table[s.value].no;
    if w2.fs.disk != m.disk {
      var d := Here(w, p);
      OtherNames(m.disk, w2.fs.disk, w2, d, t);
    }
  }

  lemma OtherNames(disk: Disk, disk2: Disk, w2: World, d: nat, t: nat)
    requires WorldOk(w2) && disk2 == w2.fs.disk && PL.DirAt(disk, d) && t < INUM && DinodeAt(disk, t).typ == TYPE_FILE
    requires forall j :: 0 <= j < INUM && j != t ==> SameFile(disk, disk2, j)
    ensures PL.Names(disk2, d) == PL.Names(disk, d)
  {
    hide DinodeAt, Contents, WorldOk, Sized, WellDir, PL.Names, PosBlk;
    SizesFit(w2);
    assert SameFile(disk, disk2, d);
    PL.SameNames(disk2, disk, d);
  }
}
