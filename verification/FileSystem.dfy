/** The block file system (kernel/src/fs.c): allocation, the active inode table, and file contents. */
module FileSystem {
  import opened Bytes
  import opened BlockDevice
  import opened FsLayout
  import opened FsInvariant
  import opened Bitmap

  const INODE_NUM := 128
  const FREE_BLKS := 32704  // BLK_NUM - DATA_START

  datatype SuperBlock = SuperBlock(bitmap: u32, istart: u32, inum: u32, root: u32)

  const Layout := SuperBlock(BITMAP, ISTART, INUM, ROOT)

  function DecSuper(b: seq<byte>): SuperBlock
    requires |b| >= 16
  {
    SuperBlock(GetU32(b, 0), GetU32(b, 4), GetU32(b, 8), GetU32(b, 12))
  }

  function SuperAt(disk: Disk): SuperBlock {
    DecSuper(disk[SUPER_BLOCK])
  }

  // A slot of the active inode table; free when ref is 0.
  datatype Inode = Inode(no: nat, ref: nat, del: bool, dinode: Dinode)

  type Table = seq<Inode>

  /** Every slot in use names a different allocated inode and holds what the disk holds for it. */
  ghost predicate TableOk(table: Table, disk: Disk)
  {
    && |table| == INODE_NUM
    && (forall s :: 0 <= s < INODE_NUM && table[s].ref > 0 ==>
          0 < table[s].no < INUM && table[s].dinode == DinodeAt(disk, table[s].no) && table[s].dinode.typ != TYPE_NONE)
    && (forall s, t :: 0 <= s < t < INODE_NUM && table[s].ref > 0 && table[t].ref > 0 ==> table[s].no != table[t].no)
  }

  /** `owner2` extends `owner` by `grown` blocks, all of them inode `i`'s. */
  ghost predicate OwnerGrown(owner: Owner, owner2: Owner, i: nat, grown: nat)
  {
    && |owner2| == |owner| + grown
    && (forall b :: b in owner ==> b in owner2 && owner2[b] == owner[b])
    && (forall b :: b in owner2 && b !in owner ==> owner2[b].0 == i)
  }

  ghost predicate Extended(disk: Disk, disk2: Disk, i: nat, n: nat)
    requires i < INUM && n < MAX_BLKS
  {
    && (forall j :: 0 <= j < INUM && j != i ==> SameFile(disk, disk2, j))
    && Shape(disk2, i, n + 1)
    && FileBlk(disk2, i, n) == Zeros()
    && (forall m :: 0 <= m < n ==> FileBlk(disk2, i, m) == FileBlk(disk, i, m))
    && DinodeAt(disk2, i).(addrs := DinodeAt(disk, i).addrs) == DinodeAt(disk, i)
  }

  /** The table after one more open of inode `no` at slot `s`. */
  function Opened(table: Table, s: nat, no: nat, d: Dinode): Table
    requires s < |table|
  {
    if table[s].ref > 0 then table[s := table[s].(ref := table[s].ref + 1)]
    else table[s := Inode(no, 1, false, d)]
  }

  lemma OpenedOk(table: Table, disk: Disk, s: nat, no: nat)
    requires TableOk(table, disk) && s < INODE_NUM
    requires 0 < no < INUM && DinodeAt(disk, no).typ != TYPE_NONE
    requires if table[s].ref > 0 then table[s].no == no
      else forall t :: 0 <= t < INODE_NUM ==> !(table[t].ref > 0 && table[t].no == no)
    ensures TableOk(Opened(table, s, no, DinodeAt(disk, no)), disk)
    ensures forall t :: 0 <= t < INODE_NUM && table[t].ref > 0 && table[t].no == no ==> t == s
  {
    hide DinodeAt;
  }

  /** The table stays right when one inode's dinode and its slot change together. */
  lemma TableAfter(table: Table, disk: Disk, disk2: Disk, s: nat)
    requires TableOk(table, disk) && s < INODE_NUM && table[s].ref > 0
    requires forall j :: 0 <= j < INUM && j != table[s].no ==> SameFile(disk, disk2, j)
    requires DinodeAt(disk2, table[s].no).typ == table[s].dinode.typ
    ensures TableOk(table[s := table[s].(dinode := DinodeAt(disk2, table[s].no))], disk2)
  {
    hide DinodeAt, PosBlk, At;
    forall t | 0 <= t < INODE_NUM && table[t].ref > 0 && t != s
      ensures DinodeAt(disk2, table[t].no) == DinodeAt(disk, table[t].no)
    {
      assert SameFile(disk, disk2, table[t].no);
    }
  }

  /** Linking block `r`, just allocated, at slot `p` of an active inode, in memory and on disk. */
  lemma AllocAddrEffect(table: Table, disk: Disk, disk1: Disk, s: nat, p: nat, r: nat,
          owner: Owner) returns (disk2: Disk)
    requires TableOk(table, disk) && s < INODE_NUM && table[s].ref > 0
    requires Separated(disk, owner) && Allocated(disk, disk1, r)
    requires p <= NDIRECT && PosBlk(disk, table[s].no, p) == 0
    ensures disk2 == WriteDinode(disk1, table[s].no, table[s].dinode.(addrs := table[s].dinode.addrs[p := r]))
    ensures Separated(disk2, owner[r := (table[s].no, p)])
    ensures Grown(disk, disk2, table[s].no, p, r)
    ensures DinodeAt(disk2, table[s].no) == table[s].dinode.(addrs := table[s].dinode.addrs[p := r])
    ensures TableOk(table[s := table[s].(dinode := DinodeAt(disk2, table[s].no))], disk2)
    ensures OwnerGrown(owner, owner[r := (table[s].no, p)], table[s].no, 1)
  {
    hide DinodeAt, PosBlk, BitAt, WriteDinode, SameFile;
    disk2 := LinkDinode(disk, disk1, r, table[s].no, p, owner);
    AllocKeeps(disk, disk1, r, owner);
    TableAfter(table, disk, disk2, s);
  }

  /** How many blocks the next data block costs a file of `n` blocks. */
  function NewBlocks(n: nat): nat {
    if n == NDIRECT then 2 else 1
  }

  lemma DirectPos(disk: Disk, i: nat)
    requires i < INUM
    ensures forall k :: 0 <= k <= NDIRECT ==> DinodeAt(disk, i).addrs[k] == PosBlk(disk, i, k)
  {
    hide DinodeAt;
  }

  lemma OwnedRange(disk: Disk, owner: Owner, i: nat, p: nat)
    requires Separated(disk, owner) && i < INUM && p < NPOS && PosBlk(disk, i, p) != 0
    ensures DATA_START <= PosBlk(disk, i, p) < BLK_NUM && PosBlk(disk, i, p) in owner
  {
    hide DinodeAt, PosBlk, BitAt;
  }

  lemma DataBlk(disk: Disk, owner: Owner, i: nat, k: nat)
    requires Separated(disk, owner) && i < INUM && k < MAX_BLKS && PosBlk(disk, i, DataPos(k)) != 0
    ensures DATA_START <= PosBlk(disk, i, DataPos(k)) < BLK_NUM
    ensures FileBlk(disk, i, k) == disk[PosBlk(disk, i, DataPos(k))]
  {
    hide DinodeAt, PosBlk, BitAt;
  }

  lemma EntryPos(disk: Disk, i: nat, e: nat)
    requires i < INUM && e < NINDIRECT && DATA_START <= PosBlk(disk, i, NDIRECT) < BLK_NUM
    ensures GetU32(disk[PosBlk(disk, i, NDIRECT)][e * 4..e * 4 + 4], 0) == PosBlk(disk, i, NDIRECT + 1 + e)
  {
    hide DinodeAt, GetU32;
    GetSlice(disk[PosBlk(disk, i, NDIRECT)], e * 4);
  }

  /** A file that grew at its next data position is extended by one zeroed block. */
  lemma GrownData(disk: Disk, disk2: Disk, i: nat, n: nat, r: u32)
    requires i < INUM && n < MAX_BLKS && r != 0 && Grown(disk, disk2, i, DataPos(n), r)
    requires Holding(disk, i, n, n >= NDIRECT)
    requires DinodeAt(disk2, i).(addrs := DinodeAt(disk, i).addrs) == DinodeAt(disk, i)
    ensures Extended(disk, disk2, i, n)
  {
    hide DinodeAt, PosBlk, SameFile;
    forall k | 0 <= k < MAX_BLKS
      ensures PosBlk(disk2, i, DataPos(k)) == if k == n then r else PosBlk(disk, i, DataPos(k))
    {
      assert DataPos(k) == DataPos(n) <==> k == n;
    }
    forall m | 0 <= m < n
      ensures FileBlk(disk2, i, m) == FileBlk(disk, i, m)
    {
      assert PosBlk(disk, i, DataPos(m)) != 0;
    }
  }

  lemma GrownIndex(disk: Disk, disk2: Disk, i: nat, n: nat, r: u32)
    requires i < INUM && r != 0 && Grown(disk, disk2, i, NDIRECT, r)
    requires Holding(disk, i, n, false)
    ensures Holding(disk2, i, n, true)
    ensures forall m :: 0 <= m < n ==> FileBlk(disk2, i, m) == FileBlk(disk, i, m)
  {
    hide DinodeAt, PosBlk, SameFile;
    forall k | 0 <= k < MAX_BLKS
      ensures PosBlk(disk2, i, DataPos(k)) == PosBlk(disk, i, DataPos(k))
    {
    }
    forall m | 0 <= m < n
      ensures FileBlk(disk2, i, m) == FileBlk(disk, i, m)
    {
      assert PosBlk(disk, i, DataPos(m)) != 0;
    }
  }

  /** The thirteenth block costs two steps: first the index block, then the block itself. */
  lemma ExtendedAfterIndex(disk: Disk, disk1: Disk, disk2: Disk, i: nat, r: u32)
    requires i < INUM && Grown(disk, disk1, i, NDIRECT, r) && Extended(disk1, disk2, i, NDIRECT)
    requires forall m :: 0 <= m < NDIRECT ==> FileBlk(disk1, i, m) == FileBlk(disk, i, m)
    requires DinodeAt(disk1, i).(addrs := DinodeAt(disk, i).addrs) == DinodeAt(disk, i)
    ensures Extended(disk, disk2, i, NDIRECT)
  {
    hide DinodeAt, PosBlk, FileBlk;
    forall j | 0 <= j < INUM && j != i
      ensures SameFile(disk, disk2, j)
    {
      SameFileTrans(disk, disk1, disk2, j);
    }
  }

  /** Linking block `r`, just allocated, in entry `e` of the index block. */
  lemma EntryEffect(table: Table, disk: Disk, disk1: Disk, s: nat, e: nat, r: nat, owner: Owner) returns (disk2: Disk)
    requires TableOk(table, disk) && s < INODE_NUM && table[s].ref > 0
    requires Separated(disk, owner) && Allocated(disk, disk1, r)
    requires e < NINDIRECT && PosBlk(disk, table[s].no, NDIRECT) != 0
    requires PosBlk(disk, table[s].no, NDIRECT + 1 + e) == 0
    ensures PosBlk(disk, table[s].no, NDIRECT) < BLK_NUM
    ensures disk2 == WriteBlk(disk1, PosBlk(disk, table[s].no, NDIRECT), e * 4, PutU32(r))
    ensures Separated(disk2, owner[r := (table[s].no, NDIRECT + 1 + e)])
    ensures Grown(disk, disk2, table[s].no, NDIRECT + 1 + e, r)
    ensures DinodeAt(disk2, table[s].no) == table[s].dinode
    ensures TableOk(table, disk2)
    ensures OwnerGrown(owner, owner[r := (table[s].no, NDIRECT + 1 + e)], table[s].no, 1)
  {
    hide DinodeAt, PosBlk, BitAt, WriteDinode, SameFile;
    IndexPos(disk, table[s].no);
    disk2 := LinkEntry(disk, disk1, r, table[s].no, e, owner);
    AllocKeeps(disk, disk1, r, owner);
    TableAfter(table, disk, disk2, s);
    assert table[s := table[s].(dinode := DinodeAt(disk2, table[s].no))] == table;
  }

  function Min(a: int, b: int): int {
    if a > b then b else a
  }

  /** Addition of two uint32_t. */
  function U32Add(a: u32, b: u32): u32 {
    (a + b) % 0x1_0000_0000
  }

  /** iread clips a length with 32-bit arithmetic: the clip is right exactly when off + len does not wrap. */
  lemma ClipExact(size: u32, off: u32, len: u32)
    requires off <= size
    ensures (if U32Add(off, len) > size then size - off else len) == Min(len, size - off) <==> off + len < 0x1_0000_0000
  {
  }

  lemma SliceAppend<T>(c: seq<T>, a: nat, b: nat, d: nat)
    requires a <= b <= d <= |c|
    ensures c[a..b] + c[b..d] == c[a..d]
  {
  }

  lemma SizedFacts(disk: Disk, i: nat)
    requires i < INUM && Sized(disk, i)
    ensures DinodeAt(disk, i).size <= MAX_SIZE && Shape(disk, i, NumBlocks(DinodeAt(disk, i).size))
    ensures |Contents(disk, i)| == DinodeAt(disk, i).size
  {
    hide DinodeAt, PosBlk;
  }

  /** A piece of one block is a piece of the contents. */
  lemma ChunkOf(disk: Disk, i: nat, k: nat, blkoff: nat, n: nat)
    requires i < INUM && k < MAX_BLKS && blkoff + n <= BLK_SIZE
    requires DinodeAt(disk, i).size <= MAX_SIZE && BLK_SIZE * k + blkoff + n <= DinodeAt(disk, i).size
    ensures Contents(disk, i)[BLK_SIZE * k + blkoff..BLK_SIZE * k + blkoff + n] == FileBlk(disk, i, k)[blkoff..blkoff + n]
  {
    hide DinodeAt, FileBlk;
    var at := BLK_SIZE * k + blkoff;
    var piece := FileBlk(disk, i, k)[blkoff..blkoff + n];
    forall y | 0 <= y < n
      ensures Contents(disk, i)[at..at + n][y] == piece[y]
    {
      assert (at + y) / BLK_SIZE == k && (at + y) % BLK_SIZE == blkoff + y;
    }
  }

  function Max(a: int, b: int): int {
    if a < b then b else a
  }

  /** `old` with `buf` written over it from `off`, which may run past its end. */
  function Splice(c: seq<byte>, off: nat, buf: seq<byte>): seq<byte> {
    if off > |c| then c
    else c[..off] + buf + if off + |buf| <= |c| then c[off + |buf|..] else []
  }

  /** How many fresh blocks a file of `a` blocks takes to have `b`, the index block included. */
  function Cost(a: nat, b: nat): nat {
    if b <= a then 0 else b - a + if a <= NDIRECT < b then 1 else 0
  }

  function WriteCost(size: nat, off: nat, len: nat): nat {
    if off > size then 0 else Cost(NumBlocks(size), Max(NumBlocks(size), NumBlocks(off + len)))
  }

  /** The write stays within the largest file and the disk has room for it. */
  predicate Writable(size: nat, off: nat, len: nat, owned: nat) {
    off <= size ==> off + len <= MAX_SIZE && owned + WriteCost(size, off, len) <= FREE_BLKS
  }

  predicate SameHeader(d: Dinode, d2: Dinode) {
    d2.typ == d.typ && d2.device == d.device
  }

  /** The bytes of inode `i` after the first `done` bytes of `buf` went in at `off`. */
  ghost predicate Written(disk: Disk, disk2: Disk, i: nat, size: nat, off: nat, buf: seq<byte>, done: nat)
    requires i < INUM && size <= MAX_SIZE && off <= size && done <= |buf| && off + |buf| <= MAX_SIZE
  {
    forall x :: 0 <= x < Max(size, off + done) ==>
      FileByte(disk2, i, x) == if off <= x < off + done then buf[x - off] else FileByte(disk, i, x)
  }

  lemma NoGrowth(owner: Owner, i: nat)
    ensures OwnerGrown(owner, owner, i, 0)
  {
  }

  lemma SameFilesRefl(disk: Disk, i: nat)
    requires i < INUM
    ensures forall j :: 0 <= j < INUM ==> SameFile(disk, disk, j)
  {
    hide DinodeAt, PosBlk;
  }

  /** Setting the size of an active inode, in memory and on disk. */
  lemma SetSize(table: Table, disk: Disk, s: nat, size: u32, owner: Owner)
    requires TableOk(table, disk) && s < INODE_NUM && table[s].ref > 0 && Separated(disk, owner)
    ensures var i := table[s].no;
      var d := table[s].dinode.(size := size);
      var disk2 := WriteDinode(disk, i, d);
      && Separated(disk2, owner)
      && TableOk(table[s := table[s].(dinode := d)], disk2)
      && DinodeAt(disk2, i) == d
      && (forall j :: 0 <= j < INUM && j != i ==> SameFile(disk, disk2, j))
      && (forall n :: Shape(disk, i, n) ==> Shape(disk2, i, n))
      && (forall x :: 0 <= x < MAX_SIZE ==> FileByte(disk2, i, x) == FileByte(disk, i, x))
  {
    hide DinodeAt, PosBlk, WriteDinode, At;
    var i := table[s].no;
    var d := table[s].dinode.(size := size);
    var disk2 := HeaderWrite(disk, i, d, owner);
    TableAfter(table, disk, disk2, s);
    forall k | 0 <= k < MAX_BLKS
      ensures PosBlk(disk2, i, DataPos(k)) == PosBlk(disk, i, DataPos(k)) && FileBlk(disk2, i, k) == FileBlk(disk, i, k)
    {
    }
  }

  /** Walking to the next block to write keeps what is written so far. */
  lemma WalkKeeps(disk: Disk, disk1: Disk, disk2: Disk, i: nat, k: nat, n: nat, size: nat, off: nat, buf: seq<byte>,
          done: nat)
    requires i < INUM && size <= MAX_SIZE && off <= size && done <= |buf| && off + |buf| <= MAX_SIZE
    requires n == Max(NumBlocks(size), NumBlocks(off + done)) && k <= n && k < MAX_BLKS
    requires Shape(disk1, i, n)
    requires if k < n then disk2 == disk1 else Extended(disk1, disk2, i, n)
    requires Written(disk, disk1, i, size, off, buf, done)
    requires forall j :: 0 <= j < INUM && j != i ==> SameFile(disk, disk1, j)
    ensures Written(disk, disk2, i, size, off, buf, done)
    ensures forall j :: 0 <= j < INUM && j != i ==> SameFile(disk, disk2, j)
    ensures Shape(disk2, i, Max(n, k + 1))
    ensures DinodeAt(disk2, i).(addrs := DinodeAt(disk1, i).addrs) == DinodeAt(disk1, i)
  {
    hide DinodeAt, PosBlk, FileBlk, SameFile, Holding;
    if k == n {
      forall x | 0 <= x < Max(size, off + done)
        ensures FileByte(disk2, i, x) == FileByte(disk1, i, x)
      {
        assert x / BLK_SIZE < n;
      }
      forall j | 0 <= j < INUM && j != i
        ensures SameFile(disk, disk2, j)
      {
        SameFileTrans(disk, disk1, disk2, j);
      }
    }
  }

  /** Writing the next piece of `buf` in its block. */
  lemma WriteKeeps(table: Table, disk: Disk, disk1: Disk, s: nat, k: nat, blkoff: nat, n: nat, size: nat, off: nat,
                   buf: seq<byte>, done: nat, len: nat, owner: Owner) returns (disk2: Disk)
    requires TableOk(table, disk1) && s < INODE_NUM && table[s].ref > 0 && Separated(disk1, owner)
    requires size <= MAX_SIZE && off <= size && done + len <= |buf| && off + |buf| <= MAX_SIZE
    requires BLK_SIZE * k + blkoff == off + done && blkoff + len <= BLK_SIZE && k < n
    requires Shape(disk1, table[s].no, n)
    requires Written(disk, disk1, table[s].no, size, off, buf, done)
    requires forall j :: 0 <= j < INUM && j != table[s].no ==> SameFile(disk, disk1, j)
    ensures PosBlk(disk1, table[s].no, DataPos(k)) < BLK_NUM
    ensures disk2 == WriteBlk(disk1, PosBlk(disk1, table[s].no, DataPos(k)), blkoff, buf[done..done + len])
    ensures TableOk(table, disk2) && Separated(disk2, owner)
    ensures DinodeAt(disk2, table[s].no) == DinodeAt(disk1, table[s].no)
    ensures forall j :: 0 <= j < INUM && j != table[s].no ==> SameFile(disk, disk2, j)
    ensures Shape(disk2, table[s].no, n)
    ensures Written(disk, disk2, table[s].no, size, off, buf, done + len)
  {
    hide DinodeAt, PosBlk, FileBlk, SameFile;
    var i := table[s].no;
    assert PosBlk(disk1, i, DataPos(k)) != 0;
    disk2 := DataWrite(disk1, i, k, blkoff, buf[done..done + len], owner);
    TableAfter(table, disk1, disk2, s);
    assert table[s := table[s].(dinode := DinodeAt(disk2, i))] == table;
    forall j | 0 <= j < INUM && j != i
      ensures SameFile(disk, disk2, j)
    {
      SameFileTrans(disk, disk1, disk2, j);
    }
    assert Shape(disk2, i, n);
    PieceWritten(disk, disk1, disk2, i, k, blkoff, size, off, buf, done, len);
  }

  lemma PieceWritten(disk: Disk, disk1: Disk, disk2: Disk, i: nat, k: nat, blkoff: nat, size: nat, off: nat,
                     buf: seq<byte>, done: nat, len: nat)
    requires i < INUM && size <= MAX_SIZE && off <= size && done + len <= |buf| && off + |buf| <= MAX_SIZE
    requires BLK_SIZE * k + blkoff == off + done && blkoff + len <= BLK_SIZE && k < MAX_BLKS
    requires Written(disk, disk1, i, size, off, buf, done)
    requires forall m :: 0 <= m < MAX_BLKS ==>
      FileBlk(disk2, i, m) == if m == k then Patch(FileBlk(disk1, i, k), blkoff, buf[done..done + len]) else FileBlk(disk1, i, m)
    ensures Written(disk, disk2, i, size, off, buf, done + len)
  {
    hide DinodeAt, PosBlk, FileBlk;
    var piece := buf[done..done + len];
    forall x | 0 <= x < Max(size, off + done + len)
      ensures FileByte(disk2, i, x) == if off <= x < off + done + len then buf[x - off] else FileByte(disk, i, x)
    {
      if off + done <= x < off + done + len {
        assert x / BLK_SIZE == k && x % BLK_SIZE == blkoff + (x - off - done);
        assert piece[x - off - done] == buf[x - off];
      } else {
        assert FileByte(disk2, i, x) == FileByte(disk1, i, x);
      }
    }
  }

  lemma WrittenAll(disk: Disk, disk2: Disk, i: nat, off: nat, buf: seq<byte>)
    requires i < INUM && DinodeAt(disk, i).size <= MAX_SIZE
    requires off <= DinodeAt(disk, i).size && off + |buf| <= MAX_SIZE
    requires Written(disk, disk2, i, DinodeAt(disk, i).size, off, buf, |buf|)
    requires DinodeAt(disk2, i).size == Max(DinodeAt(disk, i).size, off + |buf|)
    ensures Contents(disk2, i) == Splice(Contents(disk, i), off, buf)
  {
    hide DinodeAt, FileByte;
    var c, c2 := Contents(disk, i), Contents(disk2, i);
    assert |c2| == |Splice(c, off, buf)|;
    forall x | 0 <= x < |c2|
      ensures c2[x] == Splice(c, off, buf)[x]
    {
      assert c2[x] == FileByte(disk2, i, x);
    }
  }

  lemma AllSized(disk: Disk, disk2: Disk, i: nat)
    requires forall j :: 0 <= j < INUM ==> Sized(disk, j)
    requires i < INUM && forall j :: 0 <= j < INUM && j != i ==> SameFile(disk, disk2, j)
    requires DinodeAt(disk2, i).size <= MAX_SIZE && DinodeAt(disk2, i).typ != TYPE_NONE
    requires Shape(disk2, i, NumBlocks(DinodeAt(disk2, i).size))
    ensures forall j :: 0 <= j < INUM ==> Sized(disk2, j)
  {
    hide DinodeAt, PosBlk, SameFile, Shape;
    forall j | 0 <= j < INUM
      ensures Sized(disk2, j)
    {
      if j != i {
        SameFileSame(disk, disk2, j);
      }
    }
  }

  function Truncated(d: Dinode): Dinode {
    d.(size := 0, addrs := NoAddrs)
  }

  function Cleared(a: Addrs, k: nat): Addrs
    requires k <= NDIRECT
  {
    seq(k, _ => 0) + a[k..]
  }

  lemma ClearedNext(a: Addrs, k: nat)
    requires k < NDIRECT
    ensures Cleared(a, 0) == a && Cleared(a, k)[k] == a[k]
    ensures Cleared(a, k)[k := 0] == Cleared(a, k + 1)
    ensures a[k] == 0 ==> Cleared(a, k) == Cleared(a, k + 1)
  {
  }

  /** Closing `slot` is the last close of a deleted inode. */
  predicate Freed(slot: Inode) {
    slot.ref == 1 && slot.del
  }

  /** The bits of `freed`, all blocks of inode `i`, are cleared; nothing else has changed. */
  ghost predicate Freeing(disk: Disk, disk1: Disk, i: nat, freed: set<nat>)
    requires i < INUM
  {
    && (forall b :: 0 <= b < BLK_NUM && b != BITMAP ==> disk1[b] == disk[b])
    && (forall b :: 0 <= b < BLK_NUM ==> (BitAt(disk1, b) <==> BitAt(disk, b) && b !in freed))
    && (forall b :: b in freed ==> Holds(disk, i, b))
  }

  lemma NothingFreed(disk: Disk, i: nat)
    requires i < INUM
    ensures Freeing(disk, disk, i, {})
  {
  }

  lemma HoldsPos(disk: Disk, i: nat, p: nat)
    requires i < INUM && p < NPOS && PosBlk(disk, i, p) != 0
    ensures Holds(disk, i, PosBlk(disk, i, p))
  {
    hide PosBlk;
  }

  lemma NoIndexNoEntries(disk: Disk, i: nat)
    requires i < INUM && PosBlk(disk, i, NDIRECT) == 0
    ensures forall p :: NDIRECT <= p < NPOS ==> PosBlk(disk, i, p) == 0
  {
    hide DinodeAt, GetU32;
  }

  /** Writing back the emptied dinode when all blocks of the file are freed. */
  lemma TruncEffect(table: Table, disk: Disk, disk1: Disk, s: nat, freed: set<nat>, owner: Owner)
    requires TableOk(table, disk) && s < INODE_NUM && table[s].ref > 0 && Separated(disk, owner)
    requires forall j :: 0 <= j < INUM ==> Sized(disk, j)
    requires Freeing(disk, disk1, table[s].no, freed)
    requires forall p :: 0 <= p < NPOS ==> PosBlk(disk, table[s].no, p) == 0 || PosBlk(disk, table[s].no, p) in freed
    ensures var i := table[s].no;
      var d := Truncated(table[s].dinode);
      var disk2 := WriteDinode(disk1, i, d);
      && Separated(disk2, Without(owner, i))
      && TableOk(table[s := table[s].(dinode := d)], disk2)
      && DinodeAt(disk2, i) == d
      && (forall j :: 0 <= j < INUM && j != i ==> SameFile(disk, disk2, j))
      && (forall j :: 0 <= j < INUM ==> Sized(disk2, j))
  {
    hide DinodeAt, PosBlk, BitAt, SameFile, WriteDinode;
    var i := table[s].no;
    var d := Truncated(table[s].dinode);
    var disk2 := FreeFile(disk, disk1, i, d, owner);
    TableAfter(table, disk, disk2, s);
    AllSized(disk, disk2, i);
  }

  /** Zeroing the dinode of a truncated file. */
  lemma DifreeEffect(table: Table, disk: Disk, s: nat, owner: Owner)
    requires TableOk(table, disk) && s < INODE_NUM && table[s].ref > 0 && Separated(disk, owner)
    requires forall j :: 0 <= j < INUM ==> Sized(disk, j)
    requires table[s].dinode.addrs == ZeroDinode.addrs && table[s].dinode.size == 0
    ensures var i := table[s].no;
      var disk2 := WriteDinode(disk, i, ZeroDinode);
      && Separated(disk2, owner)
      && DinodeAt(disk2, i) == ZeroDinode
      && (forall j :: 0 <= j < INUM && j != i ==> SameFile(disk, disk2, j))
      && (forall j :: 0 <= j < INUM ==> Sized(disk2, j))
  {
    hide DinodeAt, PosBlk, BitAt, SameFile, WriteDinode, At;
    var i := table[s].no;
    var disk2 := HeaderWrite(disk, i, ZeroDinode, owner);
    assert Sized(disk, i) && Shape(disk, i, 0);
    forall j | 0 <= j < INUM
      ensures Sized(disk2, j)
    {
      if j != i {
        SameFileSame(disk, disk2, j);
      }
    }
  }

  lemma SameFilesTrans(d0: Disk, d1: Disk, d2: Disk, i: nat)
    requires forall j :: 0 <= j < INUM && j != i ==> SameFile(d0, d1, j)
    requires forall j :: 0 <= j < INUM && j != i ==> SameFile(d1, d2, j)
    ensures forall j :: 0 <= j < INUM && j != i ==> SameFile(d0, d2, j)
  {
    forall j | 0 <= j < INUM && j != i
      ensures SameFile(d0, d2, j)
    {
      SameFileTrans(d0, d1, d2, j);
    }
  }

  lemma CloseOk(table: Table, table2: Table, disk: Disk, disk2: Disk, s: nat)
    requires TableOk(table, disk) && s < INODE_NUM && table[s].ref > 0
    requires |table2| == INODE_NUM && table2 == table[s := table2[s]]
    requires table2[s].ref == table[s].ref - 1 && table2[s].no == table[s].no
    requires table2[s].ref > 0 ==> disk2 == disk && table2[s].dinode == table[s].dinode
    requires forall j :: 0 <= j < INUM && j != table[s].no ==> SameFile(disk, disk2, j)
    ensures TableOk(table2, disk2)
  {
    hide DinodeAt, PosBlk, At;
    forall t | 0 <= t < INODE_NUM && table2[t].ref > 0 && t != s
      ensures table2[t].dinode == DinodeAt(disk2, table2[t].no)
    {
      if table2[s].ref > 0 {
      } else {
        assert SameFile(disk, disk2, table[t].no);
      }
    }
  }

  function Span(lo: nat, hi: nat): (r: set<nat>)
    requires lo <= hi
    ensures |r| == hi - lo
    ensures forall b :: b in r <==> lo <= b < hi
    decreases hi - lo
  {
    if lo == hi then {} else {lo} + Span(lo + 1, hi)
  }

  lemma SubsetSize<T>(a: set<T>, b: set<T>)
    requires a <= b
    ensures |a| <= |b|
  {
    if a != {} {
      var x :| x in a;
      SubsetSize(a - {x}, b - {x});
    }
  }

  /** While fewer blocks are owned than there are, one is free. */
  lemma FreeBlockExists(disk: Disk, owner: Owner)
    requires Separated(disk, owner) && |owner| < FREE_BLKS
    ensures exists b :: 0 <= b < BLK_NUM && !BitAt(disk, b)
    ensures forall b :: 0 <= b < DATA_START ==> BitAt(disk, b)
  {
    hide DinodeAt, PosBlk, BitAt;
    if forall b :: 0 <= b < BLK_NUM ==> BitAt(disk, b) {
      SubsetSize(Span(DATA_START, BLK_NUM), owner.Keys);
    }
  }

  class Fs {
    const dev: Device
    const inodes: array<Inode>
    var sb: SuperBlock
    // What the table of active inodes holds.
    ghost var table: Table
    // Which inode and position holds each allocated block.
    ghost var owner: Owner

    ghost predicate Mounted()
      reads this, dev, dev.sectors, dev.cache
    {
      && dev.Valid()
      && sb == Layout
      && inodes.Length == INODE_NUM
    }

    ghost predicate Core()
      reads this, inodes, dev, dev.sectors, dev.cache
      ensures Core() ==> inodes.Length == |table| == INODE_NUM
    {
      && Mounted()
      && Separated(dev.blocks, owner)
      && TableOk(table, dev.blocks)
      && |table| == INODE_NUM && forall s :: 0 <= s < INODE_NUM ==> inodes[s] == table[s]
    }

    // The invariant that holds between operations.
    ghost predicate Valid()
      reads this, inodes, dev, dev.sectors, dev.cache
      ensures Valid() ==> Core()
    {
      && Core()
      && forall i :: 0 <= i < INUM ==> Sized(dev.blocks, i)
    }

    /** A slot in use mirrors an allocated inode. */
    lemma Active(s: nat)
      requires Core() && s < INODE_NUM && table[s].ref > 0
      ensures inodes[s] == table[s]
      ensures 0 < table[s].no < INUM && table[s].dinode == DinodeAt(dev.blocks, table[s].no)
      ensures table[s].dinode.typ != TYPE_NONE
    {
      hide DinodeAt, Separated, Device.Valid;
    }

    /** init_fs: read the super block; no inode is active yet. */
    constructor (dev: Device, ghost owner: Owner)
      requires dev.Valid() && SuperAt(dev.blocks) == Layout
      requires Separated(dev.blocks, owner) && forall i :: 0 <= i < INUM ==> Sized(dev.blocks, i)
      modifies dev.cache
      ensures Valid() && fresh(inodes) && this.dev == dev && this.owner == owner
      ensures dev.blocks == old(dev.blocks)
      ensures forall s :: 0 <= s < INODE_NUM ==> table[s].ref == 0
    {
      this.dev := dev;
      this.owner := owner;
      inodes := new Inode[INODE_NUM](_ => Inode(0, 0, false, ZeroDinode));
      table := seq(INODE_NUM, _ => Inode(0, 0, false, ZeroDinode));
      sb := Layout;
      new;
      var b := dev.Bread(16, SUPER_BLOCK, 0);
      sb := DecSuper(b);
    }

    // ---------------------------------------------------------------- dinodes

    method Diread(no: nat) returns (d: Dinode)
      requires Mounted() && no < INUM
      modifies dev.cache
      ensures Mounted()
      ensures d == DinodeAt(dev.blocks, no)
    {
      hide DecDinode;
      var b := dev.Bread(DINODE_SIZE, sb.istart + no / IPERBLK, no % IPERBLK * DINODE_SIZE);
      d := DecDinode(b, 0);
      DecSlice(dev.blocks[DinodeBlk(no)], DinodeOff(no));
    }

    method Diwrite(d: Dinode, no: nat)
      requires Mounted() && no < INUM
      modifies dev, dev.sectors, dev.cache
      ensures Mounted()
      ensures dev.blocks == WriteDinode(old(dev.blocks), no, d)
    {
      hide EncDinode;
      dev.Bwrite(EncDinode(d), sb.istart + no / IPERBLK, no % IPERBLK * DINODE_SIZE);
    }

    /** The first free inode, marked on disk with the given type. */
    method Dialloc(typ: u32) returns (no: nat)
      requires Mounted()
      requires exists i :: 0 < i < INUM && DinodeAt(dev.blocks, i).typ == TYPE_NONE
      modifies dev, dev.sectors, dev.cache
      ensures Mounted()
      ensures 0 < no < INUM && DinodeAt(old(dev.blocks), no).typ == TYPE_NONE
      ensures forall i :: 0 < i < no ==> DinodeAt(old(dev.blocks), i).typ != TYPE_NONE
      ensures dev.blocks == WriteDinode(old(dev.blocks), no, ZeroDinode.(typ := typ))
    {
      hide DinodeAt, WriteDinode;
      no := 1;
      while no < sb.inum
        invariant Mounted() && dev.blocks == old(dev.blocks)
        invariant 1 <= no <= INUM
        invariant forall i :: 0 < i < no ==> DinodeAt(dev.blocks, i).typ != TYPE_NONE
      {
        var d := Diread(no);
        if d.typ == TYPE_NONE {
          Diwrite(d.(typ := typ, size := 0, device := 0, addrs := NoAddrs), no);
          return;
        }
        no := no + 1;
      }
      assert false;
    }

    method Difree(no: nat)
      requires Mounted() && no < INUM
      modifies dev, dev.sectors, dev.cache
      ensures Mounted()
      ensures dev.blocks == WriteDinode(old(dev.blocks), no, ZeroDinode)
    {
      Diwrite(ZeroDinode, no);
    }

    // ---------------------------------------------------------------- blocks

    /** The first free block, zeroed and marked used. The bitmap is scanned a 32-bit word at a time. */
    method Balloc() returns (r: nat)
      requires Mounted()
      requires forall b :: 0 <= b < DATA_START ==> BitAt(dev.blocks, b)
      requires exists b :: 0 <= b < BLK_NUM && !BitAt(dev.blocks, b)
      modifies dev, dev.sectors, dev.cache
      ensures Mounted()
      ensures Allocated(old(dev.blocks), dev.blocks, r)
      ensures forall b :: 0 <= b < r ==> BitAt(old(dev.blocks), b)
    {
      hide BitAt, Bit, SetBit, GetU32, PutU32;
      ghost var disk := dev.blocks;
      var i := 0;
      while i < BLK_NUM / 32
        invariant Mounted() && dev.blocks == disk
        invariant 0 <= i <= BLK_NUM / 32
        invariant forall b :: 0 <= b < 32 * i ==> BitAt(disk, b)
      {
        var bytes := dev.Bread(4, sb.bitmap, i * 4);
        var word := GetU32(bytes, 0);
        assert word == WordAt(disk, i) by { GetSlice(disk[BITMAP], i * 4); }
        if word != 0xffff_ffff {
          var j := 0;
          while j < 32
            invariant Mounted() && dev.blocks == disk
            invariant 0 <= j <= 32
            invariant forall m :: 0 <= m < j ==> Bit(word, m)
          {
            if !Bit(word, j) {
              r := 32 * i + j;
              BitmapWord(disk, i);
              forall b | 32 * i <= b < r
                ensures BitAt(disk, b)
              {
                assert Bit(word, b - 32 * i);
              }
              assert !BitAt(disk, r);
              dev.Bzero(r);
              ghost var disk0 := dev.blocks;
              SetBitInWord(disk, disk0, i, j);
              dev.Bwrite(PutU32(SetBit(word, j)), sb.bitmap, i * 4);
              return;
            }
            j := j + 1;
          }
          NotAllOnes(word);
        }
        AllOnesWord(disk, i);
        i := i + 1;
      }
      assert false;
    }

    method Bfree(blkno: nat)
      requires Mounted() && DATA_START <= blkno < BLK_NUM
      modifies dev, dev.sectors, dev.cache
      ensures Mounted()
      ensures forall b :: 0 <= b < BLK_NUM && b != BITMAP ==> dev.blocks[b] == old(dev.blocks)[b]
      ensures forall b :: 0 <= b < BLK_NUM ==> (BitAt(dev.blocks, b) <==> b != blkno && BitAt(old(dev.blocks), b))
    {
      hide BitAt, ClearBit;
      var bytes := dev.Bread(1, sb.bitmap, blkno / 8);
      var byte := bytes[0];
      ClearBitInByte(dev.blocks, blkno);
      assert byte == dev.blocks[BITMAP][blkno / 8];
      dev.Bwrite([ClearBit(byte, blkno % 8)], sb.bitmap, blkno / 8);
      assert dev.blocks == WriteBlk(old(dev.blocks), BITMAP, blkno / 8, [ClearBit(byte, blkno % 8)]);
    }

    // ---------------------------------------------------------------- active inodes

    /** Open inode `no`: share the slot it has, or take the first free one. */
    method Iget(no: nat) returns (s: nat)
      requires Core() && 0 < no < INUM && DinodeAt(dev.blocks, no).typ != TYPE_NONE
      requires exists t :: 0 <= t < INODE_NUM && (table[t].ref == 0 || table[t].no == no)
      modifies this`table, inodes, dev.cache
      ensures Core() && dev.blocks == old(dev.blocks)
      ensures s < INODE_NUM && table[s].no == no && table[s].ref > 0
      ensures table == Opened(old(table), s, no, DinodeAt(dev.blocks, no))
      ensures forall t :: 0 <= t < INODE_NUM && old(table[t].ref) > 0 && old(table[t].no) == no ==> t == s
    {
      hide DinodeAt, Separated, TableOk, Device.Valid;
      s := 0;
      while s < INODE_NUM
        invariant 0 <= s <= INODE_NUM && Core() && table == old(table) && dev.blocks == old(dev.blocks)
        invariant forall t :: 0 <= t < s ==> !(table[t].ref > 0 && table[t].no == no)
      {
        if inodes[s].ref > 0 && inodes[s].no == no {
          OpenedOk(table, dev.blocks, s, no);
          inodes[s] := inodes[s].(ref := inodes[s].ref + 1);
          table := table[s := inodes[s]];
          return;
        }
        s := s + 1;
      }
      s := 0;
      while s < INODE_NUM
        invariant 0 <= s <= INODE_NUM && Core() && table == old(table) && dev.blocks == old(dev.blocks)
        invariant forall t :: 0 <= t < s ==> table[t].ref != 0
      {
        if inodes[s].ref == 0 {
          OpenedOk(table, dev.blocks, s, no);
          var d := Diread(no);
          inodes[s] := Inode(no, 1, false, d);
          table := table[s := inodes[s]];
          return;
        }
        s := s + 1;
      }
      assert false;
    }

    method Iupdate(s: nat)
      requires Mounted() && s < INODE_NUM && inodes[s].no < INUM
      modifies dev, dev.sectors, dev.cache
      ensures Mounted()
      ensures dev.blocks == WriteDinode(old(dev.blocks), inodes[s].no, inodes[s].dinode)
    {
      Diwrite(inodes[s].dinode, inodes[s].no);
    }

    method Idup(s: nat) returns (r: nat)
      requires Core() && s < INODE_NUM && table[s].ref > 0
      modifies this`table, inodes
      ensures Core() && r == s
      ensures table == old(table)[s := old(table[s]).(ref := old(table[s].ref) + 1)]
    {
      hide DinodeAt, Separated, Device.Valid;
      inodes[s] := inodes[s].(ref := inodes[s].ref + 1);
      table := table[s := inodes[s]];
      r := s;
    }

    // ---------------------------------------------------------------- the blocks of a file

    /** addrs[p] = balloc(), written through to the disk. */
    method AllocAddr(s: nat, p: nat) returns (r: u32)
      requires Core() && s < INODE_NUM && table[s].ref > 0 && p <= NDIRECT
      requires PosBlk(dev.blocks, table[s].no, p) == 0 && |owner| < FREE_BLKS
      modifies this`owner, this`table, inodes, dev, dev.sectors, dev.cache
      ensures Core()
      ensures Grown(old(dev.blocks), dev.blocks, old(table[s].no), p, r)
      ensures DinodeAt(dev.blocks, old(table[s].no)).(addrs := old(table[s].dinode.addrs)) == old(table[s].dinode)
      ensures table == old(table)[s := old(table[s]).(dinode := DinodeAt(dev.blocks, old(table[s].no)))]
      ensures OwnerGrown(old(owner), owner, old(table[s].no), 1)
      ensures r != 0
    {
      hide DinodeAt, PosBlk, BitAt, WriteDinode, SameFile, Grown, OwnerGrown, Separated;
      ghost var disk := dev.blocks;
      var no := inodes[s].no;
      FreeBlockExists(disk, owner);
      r := Balloc();
      ghost var disk2 := AllocAddrEffect(table, disk, dev.blocks, s, p, r, owner);
      inodes[s] := inodes[s].(dinode := inodes[s].dinode.(addrs := inodes[s].dinode.addrs[p := r]));
      Iupdate(s);
      table := table[s := inodes[s]];
      owner := owner[r := (no, p)];
    }

    /** blk = balloc(), written in entry `e` of the index block `ib`. */
    method AllocEntry(s: nat, ib: u32, e: nat) returns (r: u32)
      requires Core() && s < INODE_NUM && table[s].ref > 0 && e < NINDIRECT
      requires ib != 0 && ib == PosBlk(dev.blocks, table[s].no, NDIRECT)
      requires PosBlk(dev.blocks, table[s].no, NDIRECT + 1 + e) == 0 && |owner| < FREE_BLKS
      modifies this`owner, dev, dev.sectors, dev.cache
      ensures Core()
      ensures Grown(old(dev.blocks), dev.blocks, table[s].no, NDIRECT + 1 + e, r)
      ensures DinodeAt(dev.blocks, table[s].no) == table[s].dinode
      ensures OwnerGrown(old(owner), owner, table[s].no, 1)
      ensures r != 0
    {
      hide DinodeAt, PosBlk, BitAt, PutU32, SameFile, Grown, OwnerGrown, Separated, Device.Valid;
      ghost var disk := dev.blocks;
      FreeBlockExists(disk, owner);
      r := Balloc();
      ghost var disk2 := EntryEffect(table, disk, dev.blocks, s, e, r, owner);
      dev.Bwrite(PutU32(r), ib, e * 4);
      owner := owner[r := (inodes[s].no, NDIRECT + 1 + e)];
    }

    /** The block of the file's k-th data block, allocated if it is the next one. `n` is how many it has. */
    method Iwalk(s: nat, k: nat, ghost n: nat) returns (blk: u32)
      requires Core() && s < INODE_NUM && table[s].ref > 0
      requires Shape(dev.blocks, table[s].no, n) && k <= n && k < MAX_BLKS
      requires k == n ==> |owner| + NewBlocks(n) <= FREE_BLKS
      modifies this`owner, this`table, inodes, dev, dev.sectors, dev.cache
      ensures Core()
      ensures blk == PosBlk(dev.blocks, old(table[s].no), DataPos(k)) && blk != 0
      ensures k < n ==> dev.blocks == old(dev.blocks) && table == old(table) && owner == old(owner)
      ensures k == n ==> Extended(old(dev.blocks), dev.blocks, old(table[s].no), n)
      ensures k == n ==> OwnerGrown(old(owner), owner, old(table[s].no), NewBlocks(n))
      ensures table == old(table)[s := old(table[s]).(dinode := DinodeAt(dev.blocks, old(table[s].no)))]
    {
      hide DinodeAt, PosBlk, BitAt, WriteDinode, SameFile, Separated, Extended, Device.Valid;
      ghost var disk := dev.blocks;
      var no := inodes[s].no;
      DirectPos(disk, no);
      assert PosBlk(disk, no, DataPos(k)) != 0 <==> k < n;
      if k < NDIRECT {
        blk := inodes[s].dinode.addrs[k];
        if blk == 0 {
          blk := AllocAddr(s, k);
          GrownData(disk, dev.blocks, no, n, blk);
        }
        return;
      }
      var e := k - NDIRECT;
      var indirect := inodes[s].dinode.addrs[NDIRECT];
      if indirect == 0 {
        indirect := AllocAddr(s, NDIRECT);
        GrownIndex(disk, dev.blocks, no, n, indirect);
      }
      ghost var disk1 := dev.blocks;
      DirectPos(disk1, no);
      OwnedRange(disk1, owner, no, NDIRECT);
      var bytes := dev.Bread(4, indirect, e * 4);
      blk := GetU32(bytes, 0);
      EntryPos(disk1, no, e);
      if blk == 0 {
        blk := AllocEntry(s, indirect, e);
        GrownData(disk1, dev.blocks, no, n, blk);
        if n == NDIRECT {
          ExtendedAfterIndex(disk, disk1, dev.blocks, no, indirect);
        }
      }
    }

    // ---------------------------------------------------------------- file contents

    /** One turn of iread's loop: a piece of the k-th block. */
    method ReadChunk(s: nat, k: nat, blkoff: nat, len: nat) returns (chunk: seq<byte>)
      requires Core() && s < INODE_NUM && table[s].ref > 0
      requires Sized(dev.blocks, table[s].no)
      requires blkoff + len <= BLK_SIZE && len > 0 && BLK_SIZE * k + blkoff + len <= table[s].dinode.size
      modifies this`owner, this`table, inodes, dev, dev.sectors, dev.cache
      ensures Core() && dev.blocks == old(dev.blocks) && table == old(table) && owner == old(owner)
      ensures table[s] == old(table[s])
      ensures |Contents(dev.blocks, table[s].no)| == table[s].dinode.size
      ensures chunk == Contents(dev.blocks, table[s].no)[BLK_SIZE * k + blkoff..BLK_SIZE * k + blkoff + len]
    {
      hide DinodeAt, PosBlk, SameFile, Separated, Extended, Device.Valid, Holding, OwnerGrown, Contents, FileBlk, Sized;
      ghost var disk := dev.blocks;
      ghost var i := table[s].no;
      SizedFacts(disk, i);
      var blkno := Iwalk(s, k, NumBlocks(inodes[s].dinode.size));
      DataBlk(disk, owner, i, k);
      chunk := dev.Bread(len, blkno, blkoff);
      ChunkOf(disk, i, k, blkoff, len);
    }

    /** Read up to `len` bytes at `off`: the slice of the contents clipped at the size, or -1 beyond it. */
    method Iread(s: nat, off: u32, len: u32) returns (res: int, buf: seq<byte>)
      requires Valid() && s < INODE_NUM && table[s].ref > 0
      requires off <= table[s].dinode.size ==> off + len < 0x1_0000_0000
      modifies this`owner, this`table, inodes, dev, dev.sectors, dev.cache
      ensures Valid() && dev.blocks == old(dev.blocks) && table == old(table) && owner == old(owner)
      ensures var c := Contents(dev.blocks, table[s].no);
        if off > |c| then res == -1 && buf == []
        else res == |buf| && buf == c[off..Min(off + len, |c|)]
    {
      hide DinodeAt, PosBlk, SameFile, Separated, Extended, Device.Valid, Holding, OwnerGrown, Contents, FileBlk,
        Sized, TableOk, Core;
      Active(s);
      buf := [];
      ghost var disk := dev.blocks;
      ghost var slot := table[s];
      ghost var i := slot.no;
      ghost var size := slot.dinode.size;
      SizedFacts(disk, i);
      if off > inodes[s].dinode.size {
        res := -1;
        return;
      }
      var rest := len;
      if U32Add(off, len) > inodes[s].dinode.size {
        rest := inodes[s].dinode.size - off;
      }
      ghost var want: nat := rest;
      res := 0;
      var no: nat := off / BLK_SIZE;
      var blkoff: nat := off % BLK_SIZE;
      assert off + want <= size;
      while rest > 0
        invariant Core() && dev.blocks == disk && table == old(table) && owner == old(owner)
        invariant table[s] == slot
        invariant 0 <= rest && res == |buf| && res + rest == want
        invariant rest > 0 ==> BLK_SIZE * no + blkoff == off + res && blkoff < BLK_SIZE
        invariant buf == Contents(disk, i)[off..off + res]
        decreases rest
      {
        var readSize := Min(BLK_SIZE - blkoff, rest);
        var chunk := ReadChunk(s, no, blkoff, readSize);
        SliceAppend(Contents(disk, i), off, off + res, off + res + readSize);
        buf := buf + chunk;
        res := res + readSize;
        rest := rest - readSize;
        blkoff := 0;
        no := no + 1;
      }
    }

    /** One turn of iwrite's loop: the k-th block is found or allocated, and its piece of `buf` written. */
    method WriteChunk(s: nat, k: nat, blkoff: nat, off: nat, buf: seq<byte>, done: nat, len: nat,
                      ghost n: nat, ghost disk: Disk, ghost size: nat)
      requires Core() && s < INODE_NUM && table[s].ref > 0
      requires off <= size <= MAX_SIZE && off + |buf| <= MAX_SIZE && done + len <= |buf|
      requires BLK_SIZE * k + blkoff == off + done && blkoff + len <= BLK_SIZE && k < MAX_BLKS
      requires n == Max(NumBlocks(size), NumBlocks(off + done)) && k <= n
      requires k == n ==> |owner| + NewBlocks(n) <= FREE_BLKS
      requires Shape(dev.blocks, table[s].no, n)
      requires Written(disk, dev.blocks, table[s].no, size, off, buf, done)
      requires forall j :: 0 <= j < INUM && j != table[s].no ==> SameFile(disk, dev.blocks, j)
      modifies this`owner, this`table, inodes, dev, dev.sectors, dev.cache
      ensures Core()
      ensures table[s] == old(table[s]).(dinode := DinodeAt(dev.blocks, old(table[s].no)))
      ensures forall t :: 0 <= t < INODE_NUM && t != s ==> table[t] == old(table[t])
      ensures DinodeAt(dev.blocks, old(table[s].no)).(addrs := old(table[s].dinode.addrs)) == old(table[s].dinode)
      ensures Shape(dev.blocks, old(table[s].no), Max(n, k + 1))
      ensures Written(disk, dev.blocks, old(table[s].no), size, off, buf, done + len)
      ensures forall j :: 0 <= j < INUM && j != old(table[s].no) ==> SameFile(disk, dev.blocks, j)
      ensures OwnerGrown(old(owner), owner, old(table[s].no), if k == n then NewBlocks(n) else 0)
    {
      hide DinodeAt, PosBlk, SameFile, Separated, Extended, Device.Valid, Holding, FileBlk, Written;
      ghost var i := table[s].no;
      ghost var disk1 := dev.blocks;
      var blkno := Iwalk(s, k, n);
      ghost var disk2 := dev.blocks;
      WalkKeeps(disk, disk1, disk2, i, k, n, size, off, buf, done);
      DataBlk(disk2, owner, i, k);
      ghost var disk3 := WriteKeeps(table, disk, disk2, s, k, blkoff, Max(n, k + 1), size, off, buf, done, len, owner);
      dev.Bwrite(buf[done..done + len], blkno, blkoff);
    }

    /** The loop of iwrite: the file's size is set, its blocks are walked and written one by one. */
    method WriteChunks(s: nat, off: nat, buf: seq<byte>, ghost disk: Disk, ghost size: nat) returns (res: nat)
      requires Core() && s < INODE_NUM && table[s].ref > 0
      requires off <= size <= MAX_SIZE && off + |buf| <= MAX_SIZE
      requires |owner| + WriteCost(size, off, |buf|) <= FREE_BLKS
      requires Shape(dev.blocks, table[s].no, NumBlocks(size))
      requires Written(disk, dev.blocks, table[s].no, size, off, buf, 0)
      requires forall j :: 0 <= j < INUM && j != table[s].no ==> SameFile(disk, dev.blocks, j)
      modifies this`owner, this`table, inodes, dev, dev.sectors, dev.cache
      ensures Core() && res == |buf|
      ensures table[s] == old(table[s]).(dinode := DinodeAt(dev.blocks, old(table[s].no)))
      ensures forall t :: 0 <= t < INODE_NUM && t != s ==> table[t] == old(table[t])
      ensures DinodeAt(dev.blocks, old(table[s].no)).(addrs := old(table[s].dinode.addrs)) == old(table[s].dinode)
      ensures Shape(dev.blocks, old(table[s].no), NumBlocks(Max(size, off + |buf|)))
      ensures Written(disk, dev.blocks, old(table[s].no), size, off, buf, |buf|)
      ensures forall j :: 0 <= j < INUM && j != old(table[s].no) ==> SameFile(disk, dev.blocks, j)
      ensures OwnerGrown(old(owner), owner, old(table[s].no), WriteCost(size, off, |buf|))
    {
      hide DinodeAt, PosBlk, SameFile, Separated, Device.Valid, Shape, Written, TableOk, Core;
      Active(s);
      ghost var slot := table[s];
      ghost var i := slot.no;
      ghost var n0 := NumBlocks(size);
      ghost var n := n0;
      res := 0;
      var rest := |buf|;
      var no: nat := off / BLK_SIZE;
      var blkoff: nat := off % BLK_SIZE;
      while rest > 0
        invariant Core() && 0 <= rest && res + rest == |buf|
        invariant table[s] == slot.(dinode := DinodeAt(dev.blocks, i))
        invariant forall t :: 0 <= t < INODE_NUM && t != s ==> table[t] == old(table[t])
        invariant DinodeAt(dev.blocks, i).(addrs := slot.dinode.addrs) == slot.dinode
        invariant n == Max(n0, NumBlocks(off + res)) && Shape(dev.blocks, i, n)
        invariant forall j :: 0 <= j < INUM && j != i ==> SameFile(disk, dev.blocks, j)
        invariant OwnerGrown(old(owner), owner, i, Cost(n0, n))
        invariant Written(disk, dev.blocks, i, size, off, buf, res)
        invariant rest > 0 ==> BLK_SIZE * no + blkoff == off + res && blkoff < BLK_SIZE
        decreases rest
      {
        var writeSize := Min(BLK_SIZE - blkoff, rest);
        WriteChunk(s, no, blkoff, off, buf, res, writeSize, n, disk, size);
        res := res + writeSize;
        rest := rest - writeSize;
        blkoff := 0;
        n := Max(n, no + 1);
        no := no + 1;
      }
    }

    /** inode->dinode.size = size, written through to the disk. */
    method UpdateSize(s: nat, size: u32)
      requires Core() && s < INODE_NUM && table[s].ref > 0
      modifies this`table, inodes, dev, dev.sectors, dev.cache
      ensures Core()
      ensures table == old(table)[s := old(table[s]).(dinode := old(table[s].dinode).(size := size))]
      ensures DinodeAt(dev.blocks, old(table[s].no)) == old(table[s].dinode).(size := size)
      ensures forall j :: 0 <= j < INUM && j != old(table[s].no) ==> SameFile(old(dev.blocks), dev.blocks, j)
      ensures forall n :: Shape(old(dev.blocks), old(table[s].no), n) ==> Shape(dev.blocks, old(table[s].no), n)
      ensures forall x :: 0 <= x < MAX_SIZE ==>
        FileByte(dev.blocks, old(table[s].no), x) == FileByte(old(dev.blocks), old(table[s].no), x)
    {
      hide DinodeAt, PosBlk, SameFile, Separated, Device.Valid, Holding, FileByte, WriteDinode;
      SetSize(table, dev.blocks, s, size, owner);
      inodes[s] := inodes[s].(dinode := inodes[s].dinode.(size := size));
      Iupdate(s);
      table := table[s := inodes[s]];
    }

    /** Write `buf` at `off`, extending the file if need be; -1 when `off` is beyond its end. */
    method Iwrite(s: nat, off: u32, buf: seq<byte>) returns (res: int)
      requires Valid() && s < INODE_NUM && table[s].ref > 0
      requires Writable(table[s].dinode.size, off, |buf|, |owner|)
      modifies this`owner, this`table, inodes, dev, dev.sectors, dev.cache
      ensures Valid()
      ensures off > old(table[s].dinode.size) ==>
        res == -1 && dev.blocks == old(dev.blocks) && table == old(table) && owner == old(owner)
      ensures off <= old(table[s].dinode.size) ==>
        res == |buf| && Contents(dev.blocks, old(table[s].no)) == Splice(Contents(old(dev.blocks), old(table[s].no)), off, buf)
      ensures forall j :: 0 <= j < INUM && j != old(table[s].no) ==> SameFile(old(dev.blocks), dev.blocks, j)
      ensures SameHeader(DinodeAt(old(dev.blocks), old(table[s].no)), DinodeAt(dev.blocks, old(table[s].no)))
      ensures table == old(table)[s := old(table[s]).(dinode := DinodeAt(dev.blocks, old(table[s].no)))]
      ensures OwnerGrown(old(owner), owner, old(table[s].no), WriteCost(old(table[s].dinode.size), off, |buf|))
    {
      hide DinodeAt, PosBlk, SameFile, Separated, Device.Valid, Holding, Contents, FileByte, Sized, OwnerGrown,
        TableOk, Core;
      Active(s);
      ghost var disk := dev.blocks;
      ghost var slot := table[s];
      ghost var i := slot.no;
      ghost var size: nat := slot.dinode.size;
      SizedFacts(disk, i);
      SameFilesRefl(disk, i);
      if off > inodes[s].dinode.size {
        NoGrowth(owner, i);
        res := -1;
        return;
      }
      if U32Add(off, |buf|) > inodes[s].dinode.size {
        UpdateSize(s, U32Add(off, |buf|));
      }
      assert Written(disk, dev.blocks, i, size, off, buf, 0);
      res := WriteChunks(s, off, buf, disk, size);
      WrittenAll(disk, dev.blocks, i, off, buf);
      AllSized(disk, dev.blocks, i);
    }

    // ---------------------------------------------------------------- truncation and deferred deletion

    /** bfree(addrs[p]); addrs[p] = 0, the latter in memory only. */
    method FreeAddr(s: nat, p: nat, ghost disk: Disk, ghost freed0: set<nat>) returns (ghost freed: set<nat>)
      requires Mounted() && s < INODE_NUM && inodes[s].no < INUM && Separated(disk, owner) && p <= NDIRECT
      requires inodes[s].dinode.addrs[p] == PosBlk(disk, inodes[s].no, p) && inodes[s].dinode.addrs[p] != 0
      requires Freeing(disk, dev.blocks, inodes[s].no, freed0)
      modifies inodes, dev, dev.sectors, dev.cache
      ensures Mounted() && Freeing(disk, dev.blocks, old(inodes[s].no), freed)
      ensures freed == freed0 + {PosBlk(disk, old(inodes[s].no), p) as nat}
      ensures inodes[s] == old(inodes[s]).(dinode := old(inodes[s].dinode).(addrs := old(inodes[s].dinode.addrs)[p := 0]))
      ensures forall t :: 0 <= t < INODE_NUM && t != s ==> inodes[t] == old(inodes[t])
    {
      hide DinodeAt, PosBlk, BitAt, Device.Valid, Separated, Holds;
      OwnedRange(disk, owner, inodes[s].no, p);
      HoldsPos(disk, inodes[s].no, p);
      freed := freed0 + {PosBlk(disk, inodes[s].no, p) as nat};
      Bfree(inodes[s].dinode.addrs[p]);
      inodes[s] := inodes[s].(dinode := inodes[s].dinode.(addrs := inodes[s].dinode.addrs[p := 0]));
    }

    /** The first half of itrunc: free the direct blocks and clear their addresses in memory. */
    method FreeDirect(s: nat) returns (ghost freed: set<nat>)
      requires Mounted() && s < INODE_NUM && inodes[s].no < INUM && Separated(dev.blocks, owner)
      requires inodes[s].dinode == DinodeAt(dev.blocks, inodes[s].no)
      modifies inodes, dev, dev.sectors, dev.cache
      ensures Mounted()
      ensures Freeing(old(dev.blocks), dev.blocks, old(inodes[s].no), freed)
      ensures forall p :: 0 <= p < NDIRECT ==>
        PosBlk(old(dev.blocks), old(inodes[s].no), p) == 0 || PosBlk(old(dev.blocks), old(inodes[s].no), p) in freed
      ensures inodes[s].dinode.addrs == Cleared(old(inodes[s].dinode.addrs), NDIRECT)
      ensures inodes[s] == old(inodes[s]).(dinode := old(inodes[s].dinode).(addrs := inodes[s].dinode.addrs))
      ensures forall t :: 0 <= t < INODE_NUM && t != s ==> inodes[t] == old(inodes[t])
    {
      hide DinodeAt, PosBlk, BitAt, Device.Valid, Separated, Freeing, Cleared;
      ghost var disk := dev.blocks;
      ghost var slot := inodes[s];
      ghost var no := slot.no;
      DirectPos(disk, no);
      freed := {};
      NothingFreed(disk, no);
      ClearedNext(slot.dinode.addrs, 0);
      var k := 0;
      while k < NDIRECT
        invariant Mounted() && 0 <= k <= NDIRECT && owner == old(owner)
        invariant Freeing(disk, dev.blocks, no, freed)
        invariant forall p :: 0 <= p < k ==> PosBlk(disk, no, p) == 0 || PosBlk(disk, no, p) in freed
        invariant inodes[s].dinode.addrs == Cleared(slot.dinode.addrs, k)
        invariant inodes[s] == slot.(dinode := slot.dinode.(addrs := inodes[s].dinode.addrs))
        invariant forall t :: 0 <= t < INODE_NUM && t != s ==> inodes[t] == old(inodes[t])
      {
        ClearedNext(slot.dinode.addrs, k);
        if inodes[s].dinode.addrs[k] != 0 {
          freed := FreeAddr(s, k, disk, freed);
        }
        k := k + 1;
      }
    }

    /** The second half of itrunc: free the blocks the index block names, and the index block. */
    method FreeIndex(s: nat, ghost disk: Disk, ghost freed0: set<nat>) returns (ghost freed: set<nat>)
      requires Mounted() && s < INODE_NUM && inodes[s].no < INUM && Separated(disk, owner)
      requires inodes[s].dinode.addrs[NDIRECT] == PosBlk(disk, inodes[s].no, NDIRECT)
      requires Freeing(disk, dev.blocks, inodes[s].no, freed0)
      modifies inodes, dev, dev.sectors, dev.cache
      ensures Mounted() && freed0 <= freed && Freeing(disk, dev.blocks, old(inodes[s].no), freed)
      ensures forall p :: NDIRECT <= p < NPOS ==>
        PosBlk(disk, old(inodes[s].no), p) == 0 || PosBlk(disk, old(inodes[s].no), p) in freed
      ensures inodes[s] == old(inodes[s]).(dinode := old(inodes[s].dinode).(addrs := old(inodes[s].dinode.addrs)[NDIRECT := 0]))
      ensures forall t :: 0 <= t < INODE_NUM && t != s ==> inodes[t] == old(inodes[t])
    {
      hide DinodeAt, PosBlk, BitAt, Device.Valid, Separated, Holds;
      ghost var no := inodes[s].no;
      freed := freed0;
      if inodes[s].dinode.addrs[NDIRECT] != 0 {
        freed := FreeEntries(inodes[s].dinode.addrs[NDIRECT], disk, no, freed);
        freed := FreeAddr(s, NDIRECT, disk, freed);
      } else {
        NoIndexNoEntries(disk, no);
        assert old(inodes[s].dinode.addrs)[NDIRECT := 0] == old(inodes[s].dinode.addrs);
      }
    }

    /** The loop over the entries of the index block. */
    method FreeEntries(ib: nat, ghost disk: Disk, ghost no: nat, ghost freed0: set<nat>) returns (ghost freed: set<nat>)
      requires Mounted() && no < INUM && Separated(disk, owner)
      requires ib == PosBlk(disk, no, NDIRECT) && ib != 0 && Freeing(disk, dev.blocks, no, freed0)
      modifies dev, dev.sectors, dev.cache
      ensures Mounted() && freed0 <= freed && Freeing(disk, dev.blocks, no, freed)
      ensures forall p :: NDIRECT < p < NPOS ==> PosBlk(disk, no, p) == 0 || PosBlk(disk, no, p) in freed
    {
      hide DinodeAt, PosBlk, BitAt, Device.Valid, Holds, Separated;
      OwnedRange(disk, owner, no, NDIRECT);
      freed := freed0;
      var e := 0;
      while e < NINDIRECT
        invariant Mounted() && 0 <= e <= NINDIRECT
        invariant freed0 <= freed && Freeing(disk, dev.blocks, no, freed)
        invariant forall p :: NDIRECT < p < NDIRECT + 1 + e ==> PosBlk(disk, no, p) == 0 || PosBlk(disk, no, p) in freed
      {
        var bytes := dev.Bread(4, ib, e * 4);
        var blkno := GetU32(bytes, 0);
        assert blkno == PosBlk(disk, no, NDIRECT + 1 + e) by { EntryPos(disk, no, e); }
        if blkno != 0 {
          OwnedRange(disk, owner, no, NDIRECT + 1 + e);
          HoldsPos(disk, no, NDIRECT + 1 + e);
          Bfree(blkno);
          freed := freed + {blkno as nat};
        }
        e := e + 1;
      }
    }

    /** Free every block of the file, and the index block, and set its size to 0. */
    method Itrunc(s: nat)
      requires Valid() && s < INODE_NUM && table[s].ref > 0
      modifies this`owner, this`table, inodes, dev, dev.sectors, dev.cache
      ensures Valid()
      ensures DinodeAt(dev.blocks, old(table[s].no)) == Truncated(old(table[s].dinode))
      ensures forall j :: 0 <= j < INUM && j != old(table[s].no) ==> SameFile(old(dev.blocks), dev.blocks, j)
      ensures table == old(table)[s := old(table[s]).(dinode := Truncated(old(table[s].dinode)))]
      ensures owner == Without(old(owner), old(table[s].no))
    {
      hide DinodeAt, PosBlk, BitAt, SameFile, Device.Valid, WriteDinode, Sized, Separated, Freeing;
      ghost var disk := dev.blocks;
      ghost var slot := table[s];
      ghost var no := slot.no;
      assert no < INUM && slot.dinode == DinodeAt(disk, no);
      DirectPos(disk, no);
      ghost var freed := FreeDirect(s);
      freed := FreeIndex(s, disk, freed);
      assert inodes[s].dinode.addrs == Truncated(slot.dinode).addrs;
      inodes[s] := inodes[s].(dinode := inodes[s].dinode.(size := 0));
      table := table[s := inodes[s]];
      TruncEffect(old(table), disk, dev.blocks, s, freed, owner);
      Iupdate(s);
      owner := Without(owner, no);
    }

    /** Give back a reference; the last one to a deleted inode frees its blocks and the inode itself. */
    method Iclose(s: nat)
      requires Valid() && s < INODE_NUM && table[s].ref > 0
      modifies this`owner, this`table, inodes, dev, dev.sectors, dev.cache
      ensures Valid()
      ensures Freed(old(table[s])) ==>
        DinodeAt(dev.blocks, old(table[s].no)) == ZeroDinode && owner == Without(old(owner), old(table[s].no))
      ensures !Freed(old(table[s])) ==>
        dev.blocks == old(dev.blocks) && owner == old(owner) && table[s].dinode == old(table[s].dinode)
      ensures forall j :: 0 <= j < INUM && j != old(table[s].no) ==> SameFile(old(dev.blocks), dev.blocks, j)
      ensures table[s].ref == old(table[s].ref) - 1 && table[s].no == old(table[s].no) && table[s].del == old(table[s].del)
      ensures table == old(table)[s := table[s]]
    {
      hide DinodeAt, PosBlk, BitAt, SameFile, Device.Valid, WriteDinode, Sized, Separated;
      ghost var no := table[s].no;
      SameFilesRefl(dev.blocks, no);
      if inodes[s].ref == 1 && inodes[s].del {
        Itrunc(s);
        ghost var disk1 := dev.blocks;
        DifreeEffect(table, disk1, s, owner);
        Difree(inodes[s].no);
        SameFilesTrans(old(dev.blocks), disk1, dev.blocks, no);
      }
      inodes[s] := inodes[s].(ref := inodes[s].ref - 1);
      table := table[s := inodes[s]];
      CloseOk(old(table), table, old(dev.blocks), dev.blocks, s);
    }
  }
}
