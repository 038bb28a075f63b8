/** File descriptors and current directories (kernel/src/syscall.c and proc.c): who holds the references that open files
    and active inodes count. */
module Descriptors {
  import opened Options
  import opened Bytes
  import opened FsLayout
  import opened FileSystem
  import opened Tree
  import opened Path
  import opened PathOps
  import opened Walk
  import opened Open
  import opened Remove
  import FT = FileTable

  const PROC_NUM := 64
  const MAX_UFILE := 32

  // What a process holds; it counts until the process exits.
  datatype Handles = Handles(alive: bool, fds: seq<Option<nat>>, cwd: Option<nat>)

  function Count(fds: seq<Option<nat>>, f: nat): nat {
    if fds == [] then 0 else (if fds[0] == Some(f) then 1 else 0) + Count(fds[1..], f)
  }

  function FdsOf(h: Handles, f: nat): nat {
    if h.alive then Count(h.fds, f) else 0
  }

  function CwdOf(h: Handles, s: nat): nat {
    if h.alive && h.cwd == Some(s) then 1 else 0
  }

  /** How many descriptors of live processes refer to file f, and how many live processes are in the directory of slot s. */
  function FdRefs(procs: seq<Handles>, f: nat): nat {
    if procs == [] then 0 else FdsOf(procs[0], f) + FdRefs(procs[1..], f)
  }

  function CwdRefs(procs: seq<Handles>, s: nat): nat {
    if procs == [] then 0 else CwdOf(procs[0], s) + CwdRefs(procs[1..], s)
  }

  lemma {:induction false} CountUpdate(fds: seq<Option<nat>>, k: nat, e: Option<nat>, f: nat)
    requires k < |fds|
    ensures Count(fds[k := e], f) == Count(fds, f) - (if fds[k] == Some(f) then 1 else 0) + (if e == Some(f) then 1 else 0)
  {
    if k == 0 {
      assert fds[k := e][1..] == fds[1..];
    } else {
      CountUpdate(fds[1..], k - 1, e, f);
      assert fds[k := e][1..] == fds[1..][k - 1 := e];
    }
  }

  lemma {:induction false} RefsUpdate(procs: seq<Handles>, p: nat, h: Handles, x: nat)
    requires p < |procs|
    ensures FdRefs(procs[p := h], x) == FdRefs(procs, x) - FdsOf(procs[p], x) + FdsOf(h, x)
    ensures CwdRefs(procs[p := h], x) == CwdRefs(procs, x) - CwdOf(procs[p], x) + CwdOf(h, x)
    ensures FdRefs(procs, x) >= FdsOf(procs[p], x) && CwdRefs(procs, x) >= CwdOf(procs[p], x)
  {
    if p == 0 {
      assert procs[p := h][1..] == procs[1..];
    } else {
      RefsUpdate(procs[1..], p - 1, h, x);
      assert procs[p := h][1..] == procs[1..][p - 1 := h];
    }
  }

  lemma {:induction false} CountPositive(fds: seq<Option<nat>>, k: nat, f: nat)
    requires k < |fds| && fds[k] == Some(f)
    ensures Count(fds, f) > 0
  {
    if k > 0 {
      CountPositive(fds[1..], k - 1, f);
    }
  }

  /** Every file counts the descriptors that refer to it, every inode, besides open files, the current directories. */
  ghost predicate Held(procs: seq<Handles>, files: seq<FT.File>, others: seq<nat>) {
    && |procs| == PROC_NUM && |files| == FT.TOTAL_FILE && |others| == INODE_NUM
    && (forall f :: 0 <= f < FT.TOTAL_FILE ==> files[f].ref == FdRefs(procs, f))
    && (forall s :: 0 <= s < INODE_NUM ==> others[s] == CwdRefs(procs, s))
    && (forall p :: 0 <= p < PROC_NUM ==> HandlesOk(procs[p]))
  }

  predicate HandlesOk(h: Handles) {
    && |h.fds| == MAX_UFILE
    && (forall k :: 0 <= k < MAX_UFILE && h.fds[k].Some? ==> h.fds[k].value < FT.TOTAL_FILE)
    && (h.cwd.Some? ==> h.cwd.value < INODE_NUM)
  }

  /** Descriptor k of process p now is e; the counts of the two files it meant and means changed with it. */
  lemma FdChanged(procs: seq<Handles>, files: seq<FT.File>, files2: seq<FT.File>, others: seq<nat>, p: nat, k: nat,
          e: Option<nat>)
    requires Held(procs, files, others) && p < PROC_NUM && procs[p].alive && k < MAX_UFILE && |files2| == FT.TOTAL_FILE
    requires e.Some? ==> e.value < FT.TOTAL_FILE
    requires forall f :: 0 <= f < FT.TOTAL_FILE ==>
               files2[f].ref + (if procs[p].fds[k] == Some(f) then 1 else 0) == files[f].ref + (if e == Some(f) then 1 else 0)
    ensures Held(procs[p := procs[p].(fds := procs[p].fds[k := e])], files2, others)
  {
    var h := procs[p].(fds := procs[p].fds[k := e]);
    forall f | 0 <= f < FT.TOTAL_FILE
      ensures files2[f].ref == FdRefs(procs[p := h], f)
    {
      RefsUpdate(procs, p, h, f);
      CountUpdate(procs[p].fds, k, e, f);
    }
    forall s | 0 <= s < INODE_NUM
      ensures CwdRefs(procs[p := h], s) == CwdRefs(procs, s)
    {
      RefsUpdate(procs, p, h, s);
    }
  }

  /** The current directory of process p now is e. */
  lemma CwdChanged(procs: seq<Handles>, files: seq<FT.File>, others: seq<nat>, others2: seq<nat>, p: nat,
          e: Option<nat>)
    requires Held(procs, files, others) && p < PROC_NUM && procs[p].alive && |others2| == INODE_NUM
    requires e.Some? ==> e.value < INODE_NUM
    requires forall s :: 0 <= s < INODE_NUM ==>
               others2[s] + (if procs[p].cwd == Some(s) then 1 else 0) == others[s] + (if e == Some(s) then 1 else 0)
    ensures Held(procs[p := procs[p].(cwd := e)], files, others2)
  {
    var h := procs[p].(cwd := e);
    forall f | 0 <= f < FT.TOTAL_FILE
      ensures FdRefs(procs[p := h], f) == FdRefs(procs, f)
    {
      RefsUpdate(procs, p, h, f);
    }
    forall s | 0 <= s < INODE_NUM
      ensures others2[s] == CwdRefs(procs[p := h], s)
    {
      RefsUpdate(procs, p, h, s);
    }
  }

  /** What a live process refers to is in use. */
  lemma HeldInUse(procs: seq<Handles>, files: seq<FT.File>, others: seq<nat>, p: nat, k: nat)
    requires Held(procs, files, others) && p < PROC_NUM && procs[p].alive && k < MAX_UFILE
    ensures procs[p].fds[k].Some? ==> procs[p].fds[k].value < FT.TOTAL_FILE && files[procs[p].fds[k].value].ref > 0
    ensures procs[p].cwd.Some? ==> procs[p].cwd.value < INODE_NUM && others[procs[p].cwd.value] > 0
  {
    assert HandlesOk(procs[p]);
    if procs[p].fds[k].Some? {
      CountPositive(procs[p].fds, k, procs[p].fds[k].value);
      RefsUpdate(procs, p, procs[p], procs[p].fds[k].value);
    }
    if procs[p].cwd.Some? {
      RefsUpdate(procs, p, procs[p], procs[p].cwd.value);
    }
  }

  /** A process without a descriptor or a current directory starts, or stops, counting. */
  lemma EmptyHanded(procs: seq<Handles>, files: seq<FT.File>, others: seq<nat>, p: nat, alive: bool)
    requires Held(procs, files, others) && p < PROC_NUM
    requires procs[p].cwd == None && forall k :: 0 <= k < MAX_UFILE ==> procs[p].fds[k] == None
    ensures Held(procs[p := procs[p].(alive := alive)], files, others)
  {
    var h := procs[p].(alive := alive);
    forall x: nat
      ensures FdRefs(procs[p := h], x) == FdRefs(procs, x) && CwdRefs(procs[p := h], x) == CwdRefs(procs, x)
    {
      RefsUpdate(procs, p, h, x);
      NoneCounted(procs[p].fds, x);
    }
  }

  lemma {:induction false} NoneCounted(fds: seq<Option<nat>>, f: nat)
    requires forall k :: 0 <= k < |fds| ==> fds[k] == None
    ensures Count(fds, f) == 0
  {
    if fds != [] {
      NoneCounted(fds[1..], f);
    }
  }

  /** What a dead process still has in its tables counts for nothing. */
  lemma DeadCounts(procs: seq<Handles>, files: seq<FT.File>, others: seq<nat>, p: nat, h: Handles)
    requires Held(procs, files, others) && p < PROC_NUM && !procs[p].alive && !h.alive && HandlesOk(h)
    ensures Held(procs[p := h], files, others)
  {
    forall x: nat
      ensures FdRefs(procs[p := h], x) == FdRefs(procs, x) && CwdRefs(procs[p := h], x) == CwdRefs(procs, x)
    {
      RefsUpdate(procs, p, h, x);
    }
  }

  /** The first free descriptor, MAX_UFILE if there is none. */
  function FirstFree(fds: seq<Option<nat>>, i: nat): (r: nat)
    requires i <= |fds|
    ensures i <= r <= |fds| && (r < |fds| ==> fds[r] == None) && forall k :: i <= k < r ==> fds[k] != None
    decreases |fds| - i
  {
    if i == |fds| || fds[i] == None then i else FirstFree(fds, i + 1)
  }

  // ---------------------------------------------------------------- what the calls do

  // Everything that calls on descriptors and paths change.
  datatype World = World(procs: seq<Handles>, files: seq<FT.File>, fs: FsState)

  /** The process lives and can open by path: if it does so from its current directory, that one is still linked. */
  ghost predicate MayOpen(w: World, p: nat, path: seq<byte>) {
    && Living(w, p) && IsPath(path) && w.procs[p].cwd.Some? && Room(w.fs.table, 2)
    && CwdOk(w.fs.disk, w.fs.table, path, w.procs[p].cwd.value)
  }

  predicate Living(w: World, p: nat) {
    p < |w.procs| && w.procs[p].alive
  }

  function SetFd(h: Handles, k: nat, e: Option<nat>): Handles {
    if k < |h.fds| then h.(fds := h.fds[k := e]) else h
  }

  /** The file of a descriptor. */
  function FdOf(h: Handles, fd: int): Option<nat> {
    if 0 <= fd < |h.fds| then h.fds[fd] else None
  }

  /** The first process, and the idle process: nothing open, in the root. */
  ghost predicate Booted(w: World, w2: World, p: nat) {
    && p < |w.procs| == |w2.procs| && w2.procs == w.procs[p := Handles(true, NoFds(), w2.procs[p].cwd)] && w2.files == w.files
    && SameDisk(w.fs, w2.fs)
    && w2.procs[p].cwd.Some? && OpenedAt(w.fs, w2.fs, w2.procs[p].cwd.value, ROOT)
  }

  /** The lowest free descriptor gets the file that fopen gave, by way of state m, where the inode is open in slot s. */
  ghost predicate OpenedFd(w: World, w2: World, p: nat, path: seq<byte>, mode: FT.Mode, r: int, m: FsState, s: Option<nat>) {
    && p < |w.procs| == |w2.procs| && w.procs[p].cwd.Some?
    && var h := w.procs[p];
    var k := FirstFree(h.fds, 0);
    if k == |h.fds| || forall f :: 0 <= f < |w.files| ==> w.files[f].ref > 0 then r == -1 && w2 == w
    else
      && OpenedPath(w.fs, m, path, CwdNo(w.fs.table, h.cwd.value), FT.TypeFor(mode), s)
      && var f := if r == -1 then None else FdOf(w2.procs[p], k);
      && FT.Fopened(w.fs, m, w2.fs, s, mode, w.files, w2.files, f)
      && if f.None? then r == -1 && w2.procs == w.procs else r == k && w2.procs == w.procs[p := SetFd(h, k, f)]
  }

  /** One descriptor is cleared; the last close of a disk file gives its inode back. */
  ghost predicate ClosedFd(w: World, w2: World, p: nat, fd: int, r: int) {
    && p < |w.procs|
    && var f := FdOf(w.procs[p], fd);
    if f.None? then r == -1 && w2 == w
    else
      && r == 0 && w2.procs == w.procs[p := SetFd(w.procs[p], fd, None)]
      && f.value < |w.files| && w.files[f.value].ref > 0
      && var x := w.files[f.value];
      && w2.files == w.files[f.value := x.(ref := x.ref - 1)]
      && if x.ref == 1 && x.typ == TYPE_FILE then FT.Closed(w.fs, w2.fs, x.inode) && w2.fs.links == w.fs.links
         else w2.fs == w.fs
  }

  /** The lowest free descriptor gets the same file, which counts one more. */
  ghost predicate Duplicated(w: World, w2: World, p: nat, fd: int, r: int) {
    && p < |w.procs|
    && var f, k := FdOf(w.procs[p], fd), FirstFree(w.procs[p].fds, 0);
    if k == |w.procs[p].fds| || f.None? then r == -1 && w2 == w
    else
      && r == k && f.value < |w.files|
      && w2 == World(w.procs[p := SetFd(w.procs[p], k, f)],
                     w.files[f.value := w.files[f.value].(ref := w.files[f.value].ref + 1)], w.fs)
  }

  /** The process is in the directory that the path leads to, and the one it was in is given back; or all is as it was. */
  ghost predicate ChangedDir(w: World, w2: World, p: nat, path: seq<byte>, r: int, m: FsState, s: Option<nat>) {
    && p < |w.procs| && w.procs[p].cwd.Some? && w2.files == w.files
    && OpenedPath(w.fs, m, path, CwdNo(w.fs.table, w.procs[p].cwd.value), TYPE_NONE, s)
    && if s.Some? && s.value < |m.table| && IsDir(m.disk, Some(m.table[s.value].no)) then
         && r == 0 && w2.procs == w.procs[p := w.procs[p].(cwd := s)]
         && FT.Closed(m, w2.fs, w.procs[p].cwd.value) && w2.fs.links == m.links
       else r == -1 && w2.procs == w.procs && SameDisk(w.fs, w2.fs) && SameRefs(w.fs.table, w2.fs.table)
  }

  /** The child has what its parent has, and every reference is counted. */
  ghost predicate Forked(w: World, w2: World, p: nat, c: nat) {
    && p < |w.procs| && c < |w.procs| && w.procs[p].cwd.Some? && w2.procs == w.procs[c := w.procs[p]]
    && |w2.files| == |w.files|
    && (forall f :: 0 <= f < |w.files| ==> w2.files[f] == w.files[f].(ref := w.files[f].ref + Count(w.procs[p].fds, f)))
    && SameDisk(w.fs, w2.fs) && RefsPlus(w.fs.table, w2.fs.table, w.procs[p].cwd.value)
  }

  /** Everything that the process had is given back. */
  ghost predicate Exited(w: World, w2: World, p: nat) {
    && p < |w.procs| && w2.procs == w.procs[p := w.procs[p].(alive := false)] && |w2.files| == |w.files|
    && (forall f :: 0 <= f < |w.files| ==> LessRef(w.files[f], w2.files[f], Count(w.procs[p].fds, f)))
    && FT.Dropped(w.fs, w2.fs)
  }

  /** What process p, which is exiting, still counts includes its descriptor i. */
  predicate StillHeld(shadow: seq<Handles>, p: nat, i: nat, h: Handles) {
    p < |shadow| && shadow[p].alive && i < |shadow[p].fds| == |h.fds| == MAX_UFILE && shadow[p].fds[i] == h.fds[i]
  }

  function WithoutFd(shadow: seq<Handles>, p: nat, i: nat): seq<Handles> {
    if p < |shadow| then shadow[p := SetFd(shadow[p], i, None)] else shadow
  }

  /** One reference less to the file, if there is one. */
  predicate LessRefs(files: seq<FT.File>, files2: seq<FT.File>, e: Option<nat>) {
    && |files2| == |files|
    && forall f :: 0 <= f < |files| ==> LessRef(files[f], files2[f], if e == Some(f) then 1 else 0)
  }

  predicate LessRef(x: FT.File, y: FT.File, n: nat) {
    y.ref + n == x.ref && y == x.(ref := y.ref)
  }

  /** The file that a path names is removed; descriptors and open files are as they were. */
  ghost predicate UnlinkedPath(w: World, w2: World, p: nat, path: seq<byte>, r: int) {
    && p < |w.procs| && w.procs[p].cwd.Some? && w2.procs == w.procs && w2.files == w.files
    && RemovedPath(w.fs, w2.fs, Start(path, CwdNo(w.fs.table, w.procs[p].cwd.value)), Components(path), r)
  }

  /** What reading through a descriptor gives. */
  ghost predicate ReadFd(w: World, w2: World, p: nat, fd: int, size: u32, dev: seq<byte>, res: int, buf: seq<byte>) {
    && p < |w.procs|
    && var f := FdOf(w.procs[p], fd);
    if f.None? then res == -1 && buf == [] && w2 == w
    else
      && f.value < |w.files|
      && var x := w.files[f.value];
      && FT.ReadOf(x, w.fs, size, dev, res, buf)
      && w2 == w.(files := w.files[f.value := FT.Advanced(x, if x.typ == TYPE_FILE then res else -1)])
  }

  /** What writing through a descriptor does. */
  ghost predicate WroteFd(w: World, w2: World, p: nat, fd: int, buf: seq<byte>, dev: int, res: int) {
    && p < |w.procs| && w2.procs == w.procs
    && var f := FdOf(w.procs[p], fd);
    if f.None? then res == -1 && w2 == w
    else
      && f.value < |w.files|
      && var x := w.files[f.value];
      && FT.WriteOf(x, w.fs, w2.fs, buf, dev, res) && SameRefs(w.fs.table, w2.fs.table) && w2.fs.links == w.fs.links
      && w2.files == w.files[f.value := FT.Advanced(x, if x.typ == TYPE_FILE then res else -1)]
  }

  /** What seeking does: a device keeps no offset. */
  ghost predicate SoughtFd(w: World, w2: World, p: nat, fd: int, off: u32, whence: nat, res: u32) {
    && p < |w.procs|
    && var f := FdOf(w.procs[p], fd);
    if f.None? then res == 0xffff_ffff && w2 == w
    else
      && f.value < |w.files|
      && var x := w.files[f.value];
      if x.typ != TYPE_FILE then res == 0xffff_ffff && w2 == w
      else
        && x.inode < |w.fs.table| && res == FT.Sought(x.offset, w.fs.table[x.inode].dinode.size, off, whence)
        && w2 == w.(files := w.files[f.value := x.(offset := res)])
  }

  /** The read does not wrap, the write fits, where there is a file to read or write. */
  ghost predicate CanRead(w: World, p: nat, fd: int, size: u32) {
    && Living(w, p)
    && var f := FdOf(w.procs[p], fd);
    f.Some? && f.value < |w.files| && w.files[f.value].typ == TYPE_FILE ==> FT.Readable(w.files[f.value], w.fs, size)
  }

  ghost predicate CanWrite(w: World, p: nat, fd: int, n: nat) {
    && Living(w, p)
    && var f := FdOf(w.procs[p], fd);
    f.Some? && f.value < |w.files| && w.files[f.value].typ == TYPE_FILE && w.files[f.value].writable ==>
      FT.RoomToWrite(w.files[f.value], w.fs, n)
  }

  function NoFds(): (r: seq<Option<nat>>)
    ensures |r| == MAX_UFILE && forall k :: 0 <= k < MAX_UFILE ==> r[k] == None
  {
    seq(MAX_UFILE, _ => None)
  }

  class Descriptors {
    const ft: FT.FileTable
    const procs: array<Handles>

    ghost predicate Valid()
      reads this, procs, ft, ft.files, ft.fs, ft.fs.inodes, ft.fs.dev, ft.fs.dev.sectors, ft.fs.dev.cache
    {
      ft.Valid() && procs.Length == PROC_NUM && Held(procs[..], ft.files[..], ft.others)
    }

    ghost function Now(): World
      reads this, procs, ft, ft.files, ft.fs, ft.fs.dev
    {
      World(procs[..], ft.files[..], ft.Now())
    }

    /** Nothing is open and no process lives; who holds inodes that are active is to be given to processes. */
    constructor (ft: FT.FileTable)
      requires ft.Valid() && (forall f :: 0 <= f < FT.TOTAL_FILE ==> ft.files[f].ref == 0)
      requires forall s :: 0 <= s < INODE_NUM ==> ft.others[s] == 0
      ensures Valid() && this.ft == ft && fresh(procs) && forall p :: 0 <= p < PROC_NUM ==> !procs[p].alive
    {
      hide FT.FileTable.Valid;
      this.ft := ft;
      procs := new Handles[PROC_NUM](_ => Handles(false, NoFds(), None));
      new;
      NobodyHolds(procs[..], ft.files[..], ft.others);
    }

    /** proc_allocfile */
    method AllocFile(p: nat) returns (fd: int)
      requires procs.Length == PROC_NUM && p < PROC_NUM && |procs[p].fds| == MAX_UFILE
      ensures var k := FirstFree(procs[p].fds, 0); fd == if k == MAX_UFILE then -1 else k
    {
      var i := 0;
      while i < MAX_UFILE
        invariant 0 <= i <= MAX_UFILE && FirstFree(procs[p].fds, i) == FirstFree(procs[p].fds, 0)
      {
        if procs[p].fds[i] == None {
          return i;
        }
        i := i + 1;
      }
      fd := -1;
    }

    /** proc_getfile */
    method GetFile(p: nat, fd: int) returns (f: Option<nat>)
      requires procs.Length == PROC_NUM && p < PROC_NUM && |procs[p].fds| == MAX_UFILE
      ensures f == if 0 <= fd < MAX_UFILE then procs[p].fds[fd] else None
    {
      if fd < 0 || fd >= MAX_UFILE {
        return None;
      }
      f := procs[p].fds[fd];
    }

    method StoreFd(p: nat, k: nat, e: Option<nat>, ghost files: seq<FT.File>)
      requires ft.Valid() && procs.Length == PROC_NUM && p < PROC_NUM && procs[p].alive && k < MAX_UFILE
      requires Held(procs[..], files, ft.others) && |files| == FT.TOTAL_FILE && (e.Some? ==> e.value < FT.TOTAL_FILE)
      requires forall f :: 0 <= f < FT.TOTAL_FILE ==>
                 ft.files[f].ref + (if procs[p].fds[k] == Some(f) then 1 else 0) == files[f].ref + (if e == Some(f) then 1 else 0)
      modifies procs
      ensures Valid() && HandlesOk(old(procs[p])) && procs[..] == old(procs[..])[p := old(procs[p]).(fds := old(procs[p]).fds[k := e])]
    {
      hide FT.FileTable.Valid;
      assert HandlesOk(procs[p]);
      FdChanged(procs[..], files, ft.files[..], ft.others, p, k, e);
      procs[p] := procs[p].(fds := procs[p].fds[k := e]);
    }

    /** sys_close */
    method SysClose(p: nat, fd: int) returns (r: int)
      requires Valid() && Living(Now(), p)
      modifies procs, ft`others, ft.files, ft.fs`owner, ft.fs`table, ft.fs.inodes, ft.fs.dev, ft.fs.dev.sectors, ft.fs.dev.cache
      ensures ClosedFd(old(Now()), Now(), p, fd, r)
      ensures Valid()
    {
      hide FT.FileTable.Valid, FdRefs, CwdRefs, FT.Closed;
      assert HandlesOk(procs[p]);
      var f := GetFile(p, fd);
      if f.None? {
        return -1;
      }
      ghost var files := ft.files[..];
      HeldInUse(procs[..], files, ft.others, p, fd);
      ft.Fclose(f.value);
      StoreFd(p, fd, None, files);
      r := 0;
    }

    /** sys_open: the lowest free descriptor gets the file that fopen gives. */
    method SysOpen(p: nat, path: seq<byte>, mode: FT.Mode) returns (r: int, ghost m: FsState, ghost s: Option<nat>)
      requires Valid() && MayOpen(Now(), p, path) && (mode.create ==> CanCreate(ft.fs.dev.blocks, ft.fs.owner))
      modifies procs, ft`others, ft`links, ft.files, ft.fs`owner, ft.fs`table, ft.fs.inodes, ft.fs.dev, ft.fs.dev.sectors, ft.fs.dev.cache
      ensures OpenedFd(old(Now()), Now(), p, path, mode, r, m, s)
      ensures Valid()
    {
      hide FT.FileTable.Valid, FdRefs, CwdRefs, CwdOk, Dead, Room, CanCreate, OpenedPath, FT.Fopened;
      assert HandlesOk(procs[p]);
      m, s := ft.Now(), None;
      r := AllocFile(p);
      if r != -1 {
        ghost var files := ft.files[..];
        CwdInUse(p);
        var f;
        f, m, s := ft.Fopen(path, mode, procs[p].cwd.value);
        OpenCounts(old(ft.Now()), m, ft.Now(), s, mode, files, ft.files[..], f);
        if f.None? {
          SameHeld(procs[..], files, ft.files[..], ft.others);
          r := -1;
        } else {
          StoreFd(p, r, f, files);
        }
      }
    }

    /** sys_dup */
    method SysDup(p: nat, fd: int) returns (r: int)
      requires Valid() && Living(Now(), p)
      modifies procs, ft.files
      ensures Duplicated(old(Now()), Now(), p, fd, r)
      ensures Valid()
    {
      hide FT.FileTable.Valid, FdRefs, CwdRefs;
      assert HandlesOk(procs[p]);
      r := AllocFile(p);
      if r != -1 {
        var f := GetFile(p, fd);
        if f.None? {
          r := -1;
        } else {
          ghost var files := ft.files[..];
          HeldInUse(procs[..], files, ft.others, p, fd);
          ft.Fdup(f.value);
          StoreFd(p, r, f, files);
        }
      }
    }

    /** sys_chdir: the new directory is taken before the old one is given back. */
    method SysChdir(p: nat, path: seq<byte>) returns (r: int, ghost m: FsState, ghost s: Option<nat>)
      requires Valid() && MayOpen(Now(), p, path)
      modifies procs, ft`others, ft`links, ft.fs`owner, ft.fs`table, ft.fs.inodes, ft.fs.dev, ft.fs.dev.sectors, ft.fs.dev.cache
      ensures ChangedDir(old(Now()), Now(), p, path, r, m, s)
      ensures Valid()
    {
      hide FT.FileTable.Valid, FdRefs, CwdRefs, CwdOk, Dead, Room, OpenedPath, DinodeAt, RefsPlus, SameRefs, FT.Closed;
      assert HandlesOk(procs[p]);
      CwdInUse(p);
      ghost var others, a := ft.others, ft.Now();
      var slot := ft.Acquire(path, TYPE_NONE, procs[p].cwd.value);
      m, s := ft.Now(), slot;
      OnlyOpened(a, m, path, CwdNo(a.table, procs[p].cwd.value), s);
      if slot.None? {
        return -1, m, s;
      }
      ft.SlotInUse(slot.value);
      if ft.fs.inodes[slot.value].dinode.typ != TYPE_DIR {
        ft.PutBack(slot.value, a);
        assert ft.others == others;
        return -1, m, s;
      }
      var before := procs[p].cwd.value;
      HeldInUse(procs[..], ft.files[..], others, p, 0);
      ft.OthersBelow(before);
      ft.Release(before);
      CwdChanged(procs[..], ft.files[..], others, ft.others, p, s);
      procs[p] := procs[p].(cwd := slot);
      r := 0;
    }

    /** init_proc and main: a process whose current directory is the root, in a slot that is not in use. */
    method BootFiles(p: nat)
      requires Valid() && p < PROC_NUM && !procs[p].alive && Room(ft.fs.table, 2)
      modifies procs, ft`others, ft`links, ft.fs`owner, ft.fs`table, ft.fs.inodes, ft.fs.dev, ft.fs.dev.sectors, ft.fs.dev.cache
      ensures Booted(old(Now()), Now(), p)
      ensures Valid()
    {
      hide FT.FileTable.Valid, FdRefs, CwdRefs, CwdOk, Dead, Room, OpenedPath, DinodeAt, RefsPlus, SameRefs, Components, HandlesOk;
      ClearFiles(p);
      ghost var before := ft.others;
      EmptyHanded(procs[..], ft.files[..], ft.others, p, true);
      procs[p] := procs[p].(alive := true);
      RootOk(ft.Now());
      ghost var a := ft.Now();
      var s := ft.Acquire([SLASH], TYPE_NONE, 0);
      RootOpened(a, ft.Now(), CwdNo(a.table, 0), s);
      CwdChanged(procs[..], ft.files[..], before, ft.others, p, s);
      procs[p] := procs[p].(cwd := s);
    }

    /** proc_alloc, as far as files go: the table of a slot that is not in use is cleared. */
    method ClearFiles(p: nat)
      requires Valid() && p < PROC_NUM && !procs[p].alive
      modifies procs
      ensures Valid() && procs[..] == old(procs[..])[p := Handles(false, NoFds(), None)]
    {
      hide FT.FileTable.Valid, FdRefs, CwdRefs;
      DeadCounts(procs[..], ft.files[..], ft.others, p, Handles(false, NoFds(), None));
      procs[p] := Handles(false, NoFds(), None);
    }

    /** sys_fork, as far as files go, with the child in slot c, which is not in use: the child gets the descriptors and the
        directory of its parent. */
    method ForkFiles(p: nat, c: nat)
      requires Valid() && Living(Now(), p) && c < PROC_NUM && procs[p].cwd.Some? && !procs[c].alive
      modifies procs, ft`others, ft.files, ft.fs`table, ft.fs.inodes
      ensures Forked(old(Now()), Now(), p, c)
      ensures Valid()
    {
      hide FT.FileTable.Valid, FdRefs, CwdRefs, HandlesOk, RefsPlus;
      ghost var w := Now();
      ClearFiles(c);
      CopyFiles(p, c);
      assert procs[..] == w.procs[c := procs[c]];
    }

    /** proc_copycurr, as far as files go, for a child whose table is empty. */
    method CopyFiles(p: nat, c: nat)
      requires Valid() && Living(Now(), p) && c < PROC_NUM && p != c && procs[p].cwd.Some?
      requires procs[c] == Handles(false, NoFds(), None)
      modifies procs, ft`others, ft.files, ft.fs`table, ft.fs.inodes
      ensures Forked(old(Now()), Now(), p, c)
      ensures Valid()
    {
      hide FT.FileTable.Valid, FdRefs, CwdRefs, HandlesOk, RefsPlus, SameRefs;
      ghost var before, files := procs[..], ft.files[..];
      FdsSized(before, files, ft.others);
      EmptyHanded(procs[..], ft.files[..], ft.others, c, true);
      procs[c] := procs[c].(alive := true);
      assert procs[..] == before[c := Handles(true, procs[c].fds, None)];
      var i := 0;
      while i < MAX_UFILE
        invariant 0 <= i <= MAX_UFILE && Valid() && |procs[c].fds| == MAX_UFILE == |procs[p].fds|
        invariant ft.others == old(ft.others) && ft.Now() == old(ft.Now())
        invariant procs[..] == before[c := Handles(true, procs[c].fds, None)]
        invariant forall k :: 0 <= k < MAX_UFILE ==> procs[c].fds[k] == if k < i then procs[p].fds[k] else None
        invariant |files| == ft.files.Length && forall f :: 0 <= f < |files| ==>
                    ft.files[f] == files[f].(ref := files[f].ref + Count(procs[p].fds[..i], f))
      {
        CountNext(procs[p].fds, i);
        DupFd(p, c, i);
        i := i + 1;
      }
      assert procs[c].fds == procs[p].fds && procs[p].fds[..i] == procs[p].fds;
      CwdInUse(p);
      ft.HoldDup(procs[p].cwd.value);
      CwdChanged(procs[..], ft.files[..], old(ft.others), ft.others, c, procs[p].cwd);
      procs[c] := procs[c].(cwd := procs[p].cwd);
      assert procs[..] == before[c := before[p]];
    }

    method DupFd(p: nat, c: nat, i: nat)
      requires Valid() && p < PROC_NUM && c < PROC_NUM && p != c && procs[p].alive && procs[c].alive && i < MAX_UFILE
      requires |procs[c].fds| == |procs[p].fds| == MAX_UFILE && procs[c].fds[i] == None
      modifies procs, ft.files
      ensures Valid() && procs[..] == old(procs[..])[c := old(procs[c]).(fds := old(procs[c]).fds[i := old(procs[p]).fds[i]])]
      ensures ft.files.Length == FT.TOTAL_FILE && forall f :: 0 <= f < FT.TOTAL_FILE ==>
                ft.files[f] == old(ft.files[f]).(ref := old(ft.files[f]).ref + if old(procs[p]).fds[i] == Some(f) then 1 else 0)
    {
      hide FT.FileTable.Valid, FdRefs, CwdRefs, HandlesOk;
      if procs[p].fds[i].Some? {
        ghost var files := ft.files[..];
        HeldInUse(procs[..], files, ft.others, p, i);
        ft.Fdup(procs[p].fds[i].value);
        StoreFd(c, i, procs[p].fds[i], files);
        assert ft.files[..] == files[procs[p].fds[i].value := ft.files[procs[p].fds[i].value]];
      } else {
        assert procs[c].fds[i := None] == procs[c].fds;
      }
    }

    /** fclose of descriptor i of an exiting process; `shadow` is what the processes still count. */
    method DropFd(p: nat, i: nat, ghost shadow: seq<Handles>, ghost a: FsState) returns (ghost after: seq<Handles>)
      requires ft.Valid() && procs.Length == PROC_NUM && p < PROC_NUM && i < MAX_UFILE && |procs[p].fds| == MAX_UFILE
      requires StillHeld(shadow, p, i, procs[p]) && Held(shadow, ft.files[..], ft.others) && FT.Dropped(a, ft.Now())
      modifies ft`others, ft.files, ft.fs`owner, ft.fs`table, ft.fs.inodes, ft.fs.dev, ft.fs.dev.sectors, ft.fs.dev.cache
      ensures LessRefs(old(ft.files[..]), ft.files[..], procs[p].fds[i]) && ft.others == old(ft.others)
      ensures after == WithoutFd(shadow, p, i) && Held(after, ft.files[..], ft.others) && FT.Dropped(a, ft.Now())
      ensures ft.Valid()
    {
      hide FT.FileTable.Valid, FdRefs, CwdRefs, HandlesOk, FT.Dropped, FT.Closed;
      after := WithoutFd(shadow, p, i);
      if procs[p].fds[i].Some? {
        ghost var files, b := ft.files[..], ft.Now();
        HeldInUse(shadow, files, ft.others, p, i);
        ft.Fclose(procs[p].fds[i].value);
        FdChanged(shadow, files, ft.files[..], ft.others, p, i, None);
        MaybeClosed(a, b, ft.Now(), files[procs[p].fds[i].value].inode);
        assert ft.files[..] == files[procs[p].fds[i].value := ft.files[procs[p].fds[i].value]];
      } else {
        assert shadow[p].fds[i := None] == shadow[p].fds && after == shadow;
      }
    }

    /** proc_makezombie, as far as files go: every descriptor and the directory are given back. The table of the zombie
        keeps its entries, which count no longer. */
    method ExitFiles(p: nat)
      requires Valid() && Living(Now(), p)
      modifies procs, ft`others, ft.files, ft.fs`owner, ft.fs`table, ft.fs.inodes, ft.fs.dev, ft.fs.dev.sectors, ft.fs.dev.cache
      ensures Exited(old(Now()), Now(), p)
      ensures Valid()
    {
      hide FT.FileTable.Valid, FdRefs, CwdRefs, HandlesOk, FT.Dropped, FT.Closed;
      ghost var shadow, h, files0, a := procs[..], procs[p], ft.files[..], ft.Now();
      FdsSized(shadow, ft.files[..], ft.others);
      FT.NothingDropped(a);
      var i := 0;
      while i < MAX_UFILE
        invariant 0 <= i <= MAX_UFILE && ft.Valid() && procs[..] == old(procs[..]) && |shadow| == PROC_NUM
        invariant Held(shadow, ft.files[..], ft.others) && shadow == old(procs[..])[p := h.(fds := shadow[p].fds)]
        invariant |shadow[p].fds| == MAX_UFILE && ft.others == old(ft.others)
        invariant forall k :: 0 <= k < MAX_UFILE ==> shadow[p].fds[k] == if k < i then None else h.fds[k]
        invariant |files0| == ft.files.Length && forall f :: 0 <= f < |files0| ==>
                    LessRef(files0[f], ft.files[f], Count(h.fds[..i], f))
        invariant FT.Dropped(a, ft.Now())
      {
        CountNext(h.fds, i);
        shadow := DropFd(p, i, shadow, a);
        i := i + 1;
      }
      assert h.fds[..i] == h.fds;
      if procs[p].cwd.Some? {
        ghost var b := ft.Now();
        HeldInUse(shadow, ft.files[..], ft.others, p, 0);
        ft.Release(procs[p].cwd.value);
        CwdChanged(shadow, ft.files[..], old(ft.others), ft.others, p, None);
        shadow := shadow[p := shadow[p].(cwd := None)];
        MaybeClosed(a, b, ft.Now(), procs[p].cwd.value);
      }
      EmptyHanded(shadow, ft.files[..], ft.others, p, false);
      SizedHandles(old(procs[..]), old(ft.files[..]), old(ft.others), p);
      shadow := shadow[p := shadow[p].(alive := false)];
      DeadCounts(shadow, ft.files[..], ft.others, p, h.(alive := false));
      procs[p] := procs[p].(alive := false);
      assert procs[..] == shadow[p := h.(alive := false)];
    }

    /** sys_unlink: the descriptors and directories of all processes stay what they are. */
    method SysUnlink(p: nat, path: seq<byte>) returns (r: int)
      requires Valid() && MayOpen(Now(), p, path)
      modifies ft`links, ft.fs`owner, ft.fs`table, ft.fs.inodes, ft.fs.dev, ft.fs.dev.sectors, ft.fs.dev.cache
      ensures UnlinkedPath(old(Now()), Now(), p, path, r)
      ensures Valid()
    {
      hide FT.FileTable.Valid, FdRefs, CwdRefs, CwdOk, Dead, Room, RemovedPath;
      CwdInUse(p);
      r := ft.Unlink(path, procs[p].cwd.value);
    }

    /** sys_read; `dev` is what a device would give. */
    method SysRead(p: nat, fd: int, size: u32, dev: seq<byte>) returns (res: int, buf: seq<byte>)
      requires Valid() && CanRead(Now(), p, fd, size)
      modifies ft.files, ft.fs`owner, ft.fs`table, ft.fs.inodes, ft.fs.dev, ft.fs.dev.sectors, ft.fs.dev.cache
      ensures ReadFd(old(Now()), Now(), p, fd, size, dev, res, buf)
      ensures Valid()
    {
      hide FT.FileTable.Valid, FdRefs, CwdRefs, FT.ReadOf, FT.Readable;
      assert HandlesOk(procs[p]);
      var f := GetFile(p, fd);
      if f.None? {
        return -1, [];
      }
      ghost var files := ft.files[..];
      HeldInUse(procs[..], files, ft.others, p, fd);
      res, buf := ft.Fread(f.value, size, dev);
      SameHeld(procs[..], files, ft.files[..], ft.others);
    }

    /** sys_write; `dev` is what a device would answer. */
    method SysWrite(p: nat, fd: int, buf: seq<byte>, dev: int) returns (res: int)
      requires Valid() && CanWrite(Now(), p, fd, |buf|)
      modifies ft.files, ft.fs`owner, ft.fs`table, ft.fs.inodes, ft.fs.dev, ft.fs.dev.sectors, ft.fs.dev.cache
      ensures WroteFd(old(Now()), Now(), p, fd, buf, dev, res)
      ensures Valid()
    {
      hide FT.FileTable.Valid, FdRefs, CwdRefs, FT.WriteOf, FT.RoomToWrite, SameRefs;
      assert HandlesOk(procs[p]);
      var f := GetFile(p, fd);
      if f.None? {
        return -1;
      }
      ghost var files := ft.files[..];
      HeldInUse(procs[..], files, ft.others, p, fd);
      res := ft.Fwrite(f.value, buf, dev);
      SameHeld(procs[..], files, ft.files[..], ft.others);
    }

    /** sys_lseek */
    method SysLseek(p: nat, fd: int, off: u32, whence: nat) returns (res: u32)
      requires Valid() && Living(Now(), p) && whence <= 2
      modifies ft.files
      ensures SoughtFd(old(Now()), Now(), p, fd, off, whence, res)
      ensures Valid()
    {
      hide FT.FileTable.Valid, FdRefs, CwdRefs, FT.Sought;
      assert HandlesOk(procs[p]);
      var f := GetFile(p, fd);
      if f.None? {
        return 0xffff_ffff;
      }
      ghost var files := ft.files[..];
      HeldInUse(procs[..], files, ft.others, p, fd);
      res := ft.Fseek(f.value, off, whence);
      SameHeld(procs[..], files, ft.files[..], ft.others);
    }

    lemma CwdInUse(p: nat)
      requires Valid() && p < PROC_NUM && procs[p].alive && procs[p].cwd.Some?
      ensures procs[p].cwd.value < INODE_NUM && ft.fs.table[procs[p].cwd.value].ref > 0
    {
      hide FT.FileTable.Valid, FdRefs, CwdRefs;
      HeldInUse(procs[..], ft.files[..], ft.others, p, 0);
      ft.OtherInUse(procs[p].cwd.value);
    }
  }

  lemma FdsSized(procs: seq<Handles>, files: seq<FT.File>, others: seq<nat>)
    requires Held(procs, files, others)
    ensures forall p :: 0 <= p < PROC_NUM ==> |procs[p].fds| == MAX_UFILE
  {
    assert forall p :: 0 <= p < PROC_NUM ==> HandlesOk(procs[p]);
  }

  lemma SizedHandles(procs: seq<Handles>, files: seq<FT.File>, others: seq<nat>, p: nat)
    requires Held(procs, files, others) && p < PROC_NUM
    ensures HandlesOk(procs[p]) && HandlesOk(procs[p].(alive := false))
  {
  }

  lemma SameHeld(procs: seq<Handles>, files: seq<FT.File>, files2: seq<FT.File>, others: seq<nat>)
    requires Held(procs, files, others) && |files2| == |files| && forall f :: 0 <= f < |files| ==> files2[f].ref == files[f].ref
    ensures Held(procs, files2, others)
  {
  }

  /** fopen adds one reference, to the file it gives. */
  lemma OpenCounts(a: FsState, m: FsState, b: FsState, s: Option<nat>, mode: FT.Mode, f0: seq<FT.File>,
          f1: seq<FT.File>, r: Option<nat>)
    requires |f0| == |f1| == FT.TOTAL_FILE
    requires (forall f :: 0 <= f < FT.TOTAL_FILE ==> f0[f].ref > 0) ==> r.None? && f1 == f0
    requires (exists f :: 0 <= f < FT.TOTAL_FILE && f0[f].ref == 0) ==> FT.Fopened(a, m, b, s, mode, f0, f1, r)
    ensures r.Some? ==> r.value < FT.TOTAL_FILE
    ensures forall f :: 0 <= f < FT.TOTAL_FILE ==> f1[f].ref == f0[f].ref + if r == Some(f) then 1 else 0
  {
    hide DinodeAt, RefsPlus, SameRefs, FT.Emptied;
  }

  lemma NobodyHolds(procs: seq<Handles>, files: seq<FT.File>, others: seq<nat>)
    requires |procs| == PROC_NUM && |files| == FT.TOTAL_FILE && |others| == INODE_NUM
    requires forall p :: 0 <= p < PROC_NUM ==> !procs[p].alive && HandlesOk(procs[p])
    requires forall f :: 0 <= f < FT.TOTAL_FILE ==> files[f].ref == 0
    requires forall s :: 0 <= s < INODE_NUM ==> others[s] == 0
    ensures Held(procs, files, others)
  {
    hide HandlesOk;
    forall x: nat
      ensures FdRefs(procs, x) == 0 && CwdRefs(procs, x) == 0
    {
      AllDead(procs, x);
    }
  }

  lemma {:induction false} AllDead(procs: seq<Handles>, x: nat)
    requires forall p :: 0 <= p < |procs| ==> !procs[p].alive
    ensures FdRefs(procs, x) == 0 && CwdRefs(procs, x) == 0
  {
    if procs != [] {
      AllDead(procs[1..], x);
    }
  }

  lemma {:induction false} CountNext(fds: seq<Option<nat>>, i: nat)
    requires i < |fds|
    ensures forall f: nat :: Count(fds[..i + 1], f) == Count(fds[..i], f) + if fds[i] == Some(f) then 1 else 0
  {
    forall f: nat
      ensures Count(fds[..i + 1], f) == Count(fds[..i], f) + if fds[i] == Some(f) then 1 else 0
    {
      CountAppend(fds[..i], fds[i], f);
      assert fds[..i + 1] == fds[..i] + [fds[i]];
    }
  }

  lemma {:induction false} CountAppend(fds: seq<Option<nat>>, e: Option<nat>, f: nat)
    ensures Count(fds + [e], f) == Count(fds, f) + if e == Some(f) then 1 else 0
  {
    if fds == [] {
      assert fds + [e] == [e];
    } else {
      assert (fds + [e])[1..] == fds[1..] + [e];
      CountAppend(fds[1..], e, f);
    }
  }

  /** One more reference given back, if one was. */
  lemma MaybeClosed(a: FsState, b: FsState, c: FsState, s: nat)
    requires FT.Dropped(a, b) && (c == b || (FT.Closed(b, c, s) && c.links == b.links))
    ensures FT.Dropped(a, c)
  {
    hide FT.Dropped, FT.Closed;
    if c != b {
      FT.ClosedDrops(b, c, s);
      FT.DroppedTwice(a, b, c);
    }
  }

  /** Opening without a type to create changes nothing on disk. */
  lemma OnlyOpened(a: FsState, m: FsState, path: seq<byte>, cwd: nat, s: Option<nat>)
    requires OpenedPath(a, m, path, cwd, TYPE_NONE, s)
    ensures SameDisk(a, m)
  {
    hide DinodeAt, Contents, ParentFrom, Resolve, Components, OpenedNew;
  }

  lemma RootOk(a: FsState)
    ensures IsPath([SLASH]) && CwdOk(a.disk, a.table, [SLASH], 0)
  {
  }

  /** Opening "/" opens the root. */
  lemma RootOpened(a: FsState, m: FsState, cwd: nat, s: Option<nat>)
    requires OpenedPath(a, m, [SLASH], cwd, TYPE_NONE, s)
    ensures SameDisk(a, m) && s.Some? && OpenedAt(a, m, s.value, ROOT)
  {
    hide DinodeAt, Contents, ParentFrom, Resolve, OpenedNew;
    OnlySlashes([SLASH]);
  }
}
