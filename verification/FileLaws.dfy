/** What several calls on one descriptor come to: reads and writes go on where the last one stopped, and seeking goes
    back to it (kernel/src/file.c, by way of kernel/src/syscall.c). */
module FileLaws {
  import opened Bytes
  import opened BlockDevice
  import opened FsLayout
  import opened FileSystem
  import opened Tree
  import opened PathOps
  import opened Descriptors
  import opened DescriptorRuns
  import FT = FileTable

  /** The descriptor is open on a disk file. */
  predicate OnFile(w: World, p: nat, fd: int) {
    && Living(w, p)
    && var f := FdOf(w.procs[p], fd);
    f.Some? && f.value < |w.files| && w.files[f.value].typ == TYPE_FILE && w.files[f.value].inode < |w.fs.table|
  }

  function FileAt(w: World, p: nat, fd: int): FT.File
    requires OnFile(w, p, fd)
  {
    w.files[FdOf(w.procs[p], fd).value]
  }

  /** The inode that it is open on. */
  function InodeAt(w: World, p: nat, fd: int): nat
    requires OnFile(w, p, fd)
  {
    w.fs.table[FileAt(w, p, fd).inode].no
  }

  /** The bytes of that inode. */
  ghost function BytesAt(w: World, p: nat, fd: int): seq<byte>
    requires OnFile(w, p, fd)
  {
    if InodeAt(w, p, fd) < INUM then Contents(w.fs.disk, InodeAt(w, p, fd)) else []
  }

  lemma FileFacts(w: World, p: nat, fd: int)
    requires WorldOk(w) && OnFile(w, p, fd)
    ensures w.fs.table[FileAt(w, p, fd).inode].ref > 0 && InodeAt(w, p, fd) < INUM
    ensures var d := w.fs.table[FileAt(w, p, fd).inode].dinode;
            d == DinodeAt(w.fs.disk, InodeAt(w, p, fd)) && d.size == |Contents(w.fs.disk, InodeAt(w, p, fd))| <= MAX_SIZE
  {
    hide DinodeAt, Contents, Separated, TreeOk, FT.KnownTypes, FT.NotDir, FdRefs, CwdRefs;
    var others :| FT.FilesOk(w.files, w.fs, others) && Held(w.procs, w.files, others);
    HeldInUse(w.procs, w.files, others, p, fd);
    FT.UsersAtLeast(w.files, FdOf(w.procs[p], fd).value, FileAt(w, p, fd).inode);
    SizedFacts(w.fs.disk, InodeAt(w, p, fd));
  }

  // ---------------------------------------------------------------- reading on

  /** Two descriptors that share one file: one is a copy of the other, in the same process or in a child. */
  predicate Shared(w: World, p: nat, fd: int, p2: nat, fd2: int) {
    OnFile(w, p, fd) && OnFile(w, p2, fd2) && FdOf(w.procs[p], fd) == FdOf(w.procs[p2], fd2)
  }

  /** What a read through a descriptor on a disk file gives and leaves, c being the bytes there. */
  lemma ReadOnce(w: World, w1: World, p: nat, fd: int, n: u32, r: int, b: seq<byte>, c: seq<byte>)
    requires OnFile(w, p, fd) && InodeAt(w, p, fd) < INUM && c == Contents(w.fs.disk, InodeAt(w, p, fd)) && |c| <= MAX_SIZE
    requires ReadFd(w, w1, p, fd, n, [], r, b)
    ensures var f, x := FdOf(w.procs[p], fd).value, FileAt(w, p, fd);
            if !x.readable || x.offset > |c| then r == -1 && b == [] && w1 == w
            else
              var e := Min(x.offset + n, |c|);
              && b == c[x.offset..e] && r == e - x.offset && w1 == w.(files := w.files[f := x.(offset := e)])
  {
    hide Contents;
    var f, x := FdOf(w.procs[p], fd).value, FileAt(w, p, fd);
    assert w.files[f := x] == w.files;
  }

  lemma SliceOn(c: seq<byte>, at: nat, n: nat, m: nat)
    requires at <= |c|
    ensures var e := Min(at + n, |c|);
            c[at..Min(at + (n + m), |c|)] == c[at..e] + c[e..Min(e + m, |c|)]
  {
  }

  /** Two reads one after the other, through one descriptor or through two that share their file, give what one read of
      both lengths gives, and leave everything as that one does. */
  lemma TwoReads(w: World, w1: World, w2: World, w3: World, p: nat, fd: int, p2: nat, fd2: int, n: u32, m: u32, both: u32,
                 r1: int, b1: seq<byte>, r2: int, b2: seq<byte>, r: int, b: seq<byte>)
    requires WorldOk(w) && Shared(w, p, fd, p2, fd2) && both as int == n as int + m as int
    requires ReadFd(w, w1, p, fd, n, [], r1, b1) && ReadFd(w1, w2, p2, fd2, m, [], r2, b2)
    requires ReadFd(w, w3, p, fd, both, [], r, b)
    ensures b == b1 + b2 && w2 == w3
    ensures if r < 0 then r1 == r2 == -1 else r == r1 + r2
  {
    hide WorldOk, Contents, ReadFd;
    FileFacts(w, p, fd);
    var c, x := Contents(w.fs.disk, InodeAt(w, p, fd)), FileAt(w, p, fd);
    ReadOnce(w, w1, p, fd, n, r1, b1, c);
    ReadOnce(w1, w2, p2, fd2, m, r2, b2, c);
    ReadOnce(w, w3, p, fd, both, r, b, c);
    if x.readable && x.offset <= |c| {
      SliceOn(c, x.offset, n, m);
      assert w2.files == w3.files;
    }
  }

  /** A duplicate shares its file with the descriptor it was made from. */
  lemma DupShares(w: World, w2: World, p: nat, fd: int, r: int)
    requires OnFile(w, p, fd) && Duplicated(w, w2, p, fd, r) && r >= 0
    ensures r != fd && Shared(w2, p, fd, p, r)
  {
  }

  /** So does every descriptor of a child with that of its parent. */
  lemma ForkShares(w: World, w2: World, p: nat, c: nat, fd: int)
    requires OnFile(w, p, fd) && Forked(w, w2, p, c) && |w2.fs.table| == |w.fs.table|
    ensures Shared(w2, p, fd, c, fd)
  {
  }

  // ---------------------------------------------------------------- writing on

  /** Every inode has the same bytes and the same type. */
  ghost predicate SameBytes(a: Disk, b: Disk) {
    forall j :: 0 <= j < INUM ==> Contents(b, j) == Contents(a, j) && DinodeAt(b, j).typ == DinodeAt(a, j).typ
  }

  lemma SizesFit(w: World)
    requires WorldOk(w)
    ensures |w.fs.table| == INODE_NUM && forall j :: 0 <= j < INUM ==> Sized(w.fs.disk, j) && |Contents(w.fs.disk, j)| <= MAX_SIZE
  {
    hide DinodeAt, Contents, Sized, Separated, TreeOk, FT.FilesOk, Held;
    forall j | 0 <= j < INUM
      ensures |Contents(w.fs.disk, j)| <= MAX_SIZE
    {
      SizedFacts(w.fs.disk, j);
    }
  }

  /** What a write through a descriptor on a disk file does to its inode and to the others. */
  lemma WroteBytes(w: World, w1: World, p: nat, fd: int, a: seq<byte>, r: int)
    requires WorldOk(w) && WorldOk(w1) && OnFile(w, p, fd) && FileAt(w, p, fd).writable && WroteFd(w, w1, p, fd, a, 0, r)
    ensures OnFile(w1, p, fd) && InodeAt(w1, p, fd) == InodeAt(w, p, fd) < INUM && w1.procs == w.procs
    ensures var i, x := InodeAt(w, p, fd), FileAt(w, p, fd);
            && FileAt(w1, p, fd) == x.(offset := FileAt(w1, p, fd).offset) && w1.files == w.files[FdOf(w.procs[p], fd).value := FileAt(w1, p, fd)]
            && (forall j :: 0 <= j < INUM && j != i ==> Contents(w1.fs.disk, j) == Contents(w.fs.disk, j))
            && (forall j :: 0 <= j < INUM ==> DinodeAt(w1.fs.disk, j).typ == DinodeAt(w.fs.disk, j).typ)
            && if x.offset > |Contents(w.fs.disk, i)| then
                 r == -1 && Contents(w1.fs.disk, i) == Contents(w.fs.disk, i) && FileAt(w1, p, fd).offset == x.offset
               else
                 && r == |a| && Contents(w1.fs.disk, i) == Splice(Contents(w.fs.disk, i), x.offset, a)
                 && FileAt(w1, p, fd).offset == x.offset + |a| <= |Contents(w1.fs.disk, i)|
  {
    hide DinodeAt, Contents, WorldOk, Sized, PosBlk;
    FileFacts(w, p, fd);
    SizesFit(w);
    SizesFit(w1);
    var i, x := InodeAt(w, p, fd), FileAt(w, p, fd);
    assert SameSlot(w.fs.table[x.inode], w1.fs.table[x.inode]);
    forall j | 0 <= j < INUM && j != i && w1.fs.disk != w.fs.disk
      ensures Contents(w1.fs.disk, j) == Contents(w.fs.disk, j) && DinodeAt(w1.fs.disk, j).typ == DinodeAt(w.fs.disk, j).typ
    {
      SameFileSame(w.fs.disk, w1.fs.disk, j);
    }
    SpliceFits(Contents(w.fs.disk, i), x.offset, a);
  }

  lemma SpliceFits(c: seq<byte>, off: nat, a: seq<byte>)
    ensures off <= |c| ==> off + |a| <= |Splice(c, off, a)| && Splice(c, off, a)[off..off + |a|] == a
  {
  }

  lemma SpliceOn(c: seq<byte>, off: nat, a: seq<byte>, b: seq<byte>)
    requires off <= |c|
    ensures Splice(Splice(c, off, a), off + |a|, b) == Splice(c, off, a + b)
  {
  }

  /** Two writes one after the other leave every file, and the offset, as one write of all the bytes does. */
  lemma TwoWrites(w: World, w1: World, w2: World, w3: World, p: nat, fd: int, a: seq<byte>, b: seq<byte>, r1: int, r2: int, r: int)
    requires WorldOk(w) && WorldOk(w1) && WorldOk(w2) && WorldOk(w3) && OnFile(w, p, fd)
    requires WroteFd(w, w1, p, fd, a, 0, r1) && WroteFd(w1, w2, p, fd, b, 0, r2) && WroteFd(w, w3, p, fd, a + b, 0, r)
    ensures SameBytes(w2.fs.disk, w3.fs.disk) && w2.files == w3.files && w2.procs == w3.procs
    ensures if r < 0 then r1 == r2 == -1 else r == r1 + r2
  {
    hide DinodeAt, Contents, WorldOk, Splice, WroteFd;
    if FileAt(w, p, fd).writable {
      WroteBytes(w, w1, p, fd, a, r1);
      WroteBytes(w1, w2, p, fd, b, r2);
      WroteBytes(w, w3, p, fd, a + b, r);
      var i, x := InodeAt(w, p, fd), FileAt(w, p, fd);
      if x.offset <= |Contents(w.fs.disk, i)| {
        SpliceOn(Contents(w.fs.disk, i), x.offset, a, b);
      }
    } else {
      NotWritten(w, w1, p, fd, a, r1);
      NotWritten(w1, w2, p, fd, b, r2);
      NotWritten(w, w3, p, fd, a + b, r);
    }
  }

  lemma NotWritten(w: World, w1: World, p: nat, fd: int, a: seq<byte>, r: int)
    requires OnFile(w, p, fd) && !FileAt(w, p, fd).writable && WroteFd(w, w1, p, fd, a, 0, r)
    ensures r == -1 && w1 == w
  {
    assert w1.files == w.files;
  }

  // ---------------------------------------------------------------- seeking back

  /** What was written is read again after seeking back, from the start or from where the write ended. */
  lemma ReadBack(w: World, w1: World, w2: World, w3: World, p: nat, fd: int, a: seq<byte>, off: u32, whence: nat,
                 r1: int, r2: u32, r3: int, b: seq<byte>)
    requires WorldOk(w) && WorldOk(w1) && OnFile(w, p, fd) && FileAt(w, p, fd).writable && FileAt(w, p, fd).readable
    requires 0 < |a| < 0x1_0000_0000
    requires (whence == 0 && off == FileAt(w, p, fd).offset) || (whence == 1 && off as int == 0x1_0000_0000 - |a|)
    requires WroteFd(w, w1, p, fd, a, 0, r1) && r1 >= 0 && SoughtFd(w1, w2, p, fd, off, whence, r2)
    requires ReadFd(w2, w3, p, fd, |a| as u32, [], r3, b)
    ensures r2 == FileAt(w, p, fd).offset && b == a && r3 == |a|
    ensures w3 == w1
  {
    hide DinodeAt, Contents, WorldOk, Splice, WroteFd, FT.Sought;
    WroteBytes(w, w1, p, fd, a, r1);
    FileFacts(w1, p, fd);
    FT.SoughtBack(FileAt(w, p, fd).offset, |a|, w1.fs.table[FileAt(w, p, fd).inode].dinode.size);
    var i, x := InodeAt(w, p, fd), FileAt(w, p, fd);
    SpliceFits(Contents(w.fs.disk, i), x.offset, a);
    assert w2.files[FdOf(w.procs[p], fd).value].offset == x.offset;
    assert w3.files == w1.files;
  }

  /** Seeking by nothing from where the offset is tells where it is; seeking by nothing from the end puts it there, and
      what is written then comes after all the bytes there are. */
  lemma SeekNothing(w: World, w1: World, p: nat, fd: int, whence: nat, r: u32)
    requires WorldOk(w) && OnFile(w, p, fd) && SoughtFd(w, w1, p, fd, 0, whence, r)
    requires whence <= 2
    ensures whence == 0 ==> r == 0
    ensures whence == 1 ==> r == FileAt(w, p, fd).offset && w1 == w
    ensures whence == 2 ==> r as int == |BytesAt(w, p, fd)|
    ensures OnFile(w1, p, fd) && FileAt(w1, p, fd) == FileAt(w, p, fd).(offset := r) && w1.fs == w.fs && w1.procs == w.procs
  {
    hide Contents, WorldOk, DinodeAt, FT.Sought;
    FileFacts(w, p, fd);
    var f, x := FdOf(w.procs[p], fd).value, FileAt(w, p, fd);
    FT.SoughtNothing(x.offset, w.fs.table[x.inode].dinode.size);
    assert w1.files == w.files[f := x.(offset := r)];
    assert whence == 1 ==> w1.files == w.files;
  }

  lemma AppendAtEnd(w: World, w1: World, w2: World, p: nat, fd: int, a: seq<byte>, r1: u32, r2: int)
    requires WorldOk(w) && WorldOk(w1) && WorldOk(w2) && OnFile(w, p, fd) && FileAt(w, p, fd).writable
    requires SoughtFd(w, w1, p, fd, 0, 2, r1) && WroteFd(w1, w2, p, fd, a, 0, r2)
    ensures OnFile(w2, p, fd) && InodeAt(w2, p, fd) == InodeAt(w, p, fd) && BytesAt(w2, p, fd) == BytesAt(w, p, fd) + a && r2 == |a|
  {
    hide DinodeAt, Contents, WorldOk, Splice, WroteFd, SoughtFd;
    SeekNothing(w, w1, p, fd, 2, r1);
    WroteBytes(w1, w2, p, fd, a, r2);
    SpliceEnd(Contents(w.fs.disk, InodeAt(w, p, fd)), a);
  }

  lemma SpliceEnd(c: seq<byte>, a: seq<byte>)
    ensures Splice(c, |c|, a) == c + a
  {
  }
}
