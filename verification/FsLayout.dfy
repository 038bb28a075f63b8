/** What the bytes of the disk mean: dinodes, the block bitmap, and the blocks a file occupies (kernel/src/fs.c). */
module FsLayout {
  import opened Bytes
  import opened BlockDevice

  const NDIRECT := 12
  const NINDIRECT := 1024
  const IPERBLK := 64
  const DINODE_SIZE := 64

  // The layout of utils/mkfs.c.
  const SUPER_BLOCK := 32
  const BITMAP := 33
  const ISTART := 34
  const DATA_START := 64
  const INUM := 1920
  const ROOT := 1

  const MAX_BLKS := 1036   // NDIRECT + NINDIRECT
  const MAX_SIZE := 4243456  // MAX_BLKS * BLK_SIZE
  const NPOS := 1037

  const TYPE_NONE := 0
  const TYPE_FILE := 1
  const TYPE_DIR := 2
  const TYPE_DEV := 3

  type Addrs = s: seq<u32> | |s| == NDIRECT + 1 witness seq(NDIRECT + 1, _ => 0)

  datatype Dinode = Dinode(typ: u32, device: u32, size: u32, addrs: Addrs)

  const NoAddrs: Addrs := [0, 0, 0, 0, 0, 0, 0, 0, 0, 0, 0, 0, 0]

  const ZeroDinode := Dinode(0, 0, 0, NoAddrs)

  function EncDinode(d: Dinode): (r: seq<byte>)
    ensures |r| == DINODE_SIZE
  {
    EncWords([d.typ, d.device, d.size] + d.addrs)
  }

  function DecDinode(b: seq<byte>, off: nat): Dinode
    requires off + DINODE_SIZE <= |b|
  {
    var w := DecWords(b, off, 16);
    Dinode(w[0], w[1], w[2], w[3..])
  }

  function DinodeBlk(no: nat): nat {
    ISTART + no / IPERBLK
  }

  function DinodeOff(no: nat): nat {
    no % IPERBLK * DINODE_SIZE
  }

  function DinodeAt(disk: Disk, no: nat): Dinode
    requires no < INUM
  {
    DecDinode(disk[DinodeBlk(no)], DinodeOff(no))
  }

  predicate BitAt(disk: Disk, b: nat)
    requires b < BLK_NUM
  {
    Bit(disk[BITMAP][b / 8], b % 8)
  }

  function WriteBlk(disk: Disk, no: nat, off: nat, src: seq<byte>): Disk
    requires no < BLK_NUM && off + |src| <= BLK_SIZE
  {
    disk[no := Patch(disk[no], off, src)]
  }

  function WriteDinode(disk: Disk, no: nat, d: Dinode): Disk
    requires no < INUM
  {
    WriteBlk(disk, DinodeBlk(no), DinodeOff(no), EncDinode(d))
  }

  lemma DecPatchDinode(b: Block, off: nat, d: Dinode)
    requires off + DINODE_SIZE <= BLK_SIZE
    ensures DecDinode(Patch(b, off, EncDinode(d)), off) == d
  {
    var ws := [d.typ, d.device, d.size] + d.addrs;
    DecPatchEnc(b, off, ws);
    assert ws[3..] == d.addrs;
  }

  lemma DecPatchOtherDinode(b: Block, off: nat, d: Dinode, at: nat)
    requires off + DINODE_SIZE <= BLK_SIZE && at + DINODE_SIZE <= BLK_SIZE
    requires at + DINODE_SIZE <= off || off + DINODE_SIZE <= at
    ensures DecDinode(Patch(b, off, EncDinode(d)), at) == DecDinode(b, at)
  {
    var b' := Patch(b, off, EncDinode(d));
    forall k | 0 <= k < 16
      ensures GetU32(b', at + 4 * k) == GetU32(b, at + 4 * k)
    {
      GetPatchOther(b, off, EncDinode(d), at + 4 * k);
    }
    assert DecWords(b', at, 16) == DecWords(b, at, 16);
  }

  lemma DecSlice(b: seq<byte>, off: nat)
    requires off + DINODE_SIZE <= |b|
    ensures DecDinode(b[off..off + DINODE_SIZE], 0) == DecDinode(b, off)
  {
    assert DecWords(b[off..off + DINODE_SIZE], 0, 16) == DecWords(b, off, 16);
  }

  /** Writing one dinode changes that dinode and no other. */
  lemma DinodeOfWrite(disk: Disk, no: nat, d: Dinode, j: nat)
    requires no < INUM && j < INUM
    ensures DinodeAt(WriteDinode(disk, no, d), j) == if j == no then d else DinodeAt(disk, j)
  {
    if DinodeBlk(j) == DinodeBlk(no) {
      if j == no {
        DecPatchDinode(disk[DinodeBlk(no)], DinodeOff(no), d);
      } else {
        assert j % IPERBLK != no % IPERBLK;
        DecPatchOtherDinode(disk[DinodeBlk(no)], DinodeOff(no), d, DinodeOff(j));
      }
    }
  }

  // ---------------------------------------------------------------- the blocks of a file

  // The positions of an inode that can hold a block: 0..11 direct, 12 the index block, 13.. its entries.

  function DataPos(k: nat): nat {
    if k < NDIRECT then k else k + 1
  }

  function IndexBlk(disk: Disk, i: nat): u32
    requires i < INUM
  {
    DinodeAt(disk, i).addrs[NDIRECT]
  }

  function PosBlk(disk: Disk, i: nat, p: nat): u32
    requires i < INUM && p < NPOS
  {
    if p <= NDIRECT then DinodeAt(disk, i).addrs[p]
    else if DATA_START <= IndexBlk(disk, i) < BLK_NUM then GetU32(disk[IndexBlk(disk, i)], 4 * (p - NDIRECT - 1))
    else 0
  }

  function At(disk: Disk, b: u32): Block {
    if b < BLK_NUM then disk[b] else Zeros()
  }

  function FileBlk(disk: Disk, i: nat, k: nat): Block
    requires i < INUM && k < MAX_BLKS
  {
    At(disk, PosBlk(disk, i, DataPos(k)))
  }

  function FileByte(disk: Disk, i: nat, x: nat): byte
    requires i < INUM && x < MAX_SIZE
  {
    FileBlk(disk, i, x / BLK_SIZE)[x % BLK_SIZE]
  }

  /** The byte sequence that inode `i` stands for. */
  function Contents(disk: Disk, i: nat): (c: seq<byte>)
    requires i < INUM
    ensures DinodeAt(disk, i).size <= MAX_SIZE ==> |c| == DinodeAt(disk, i).size
  {
    var size := DinodeAt(disk, i).size;
    if size > MAX_SIZE then [] else seq(size, (x: nat) requires x < size => FileByte(disk, i, x))
  }

  function NumBlocks(size: nat): nat {
    (size + BLK_SIZE - 1) / BLK_SIZE
  }

  /** Inode `i` has exactly its first `n` data blocks, and an index block just when `index` says so. */
  ghost predicate Holding(disk: Disk, i: nat, n: nat, index: bool)
    requires i < INUM
  {
    && n <= MAX_BLKS
    && (forall k :: 0 <= k < MAX_BLKS ==> (PosBlk(disk, i, DataPos(k)) != 0 <==> k < n))
    && (PosBlk(disk, i, NDIRECT) != 0 <==> index)
  }

  /** Inode `i` has exactly its first `n` data blocks, and an index block exactly when it needs one. */
  ghost predicate Shape(disk: Disk, i: nat, n: nat)
    requires i < INUM
  {
    Holding(disk, i, n, n > NDIRECT)
  }

  /** No holes and nothing beyond the end: the blocks present are those the size calls for. */
  ghost predicate Sized(disk: Disk, i: nat)
    requires i < INUM
  {
    var d := DinodeAt(disk, i);
    d.size <= MAX_SIZE && Shape(disk, i, NumBlocks(d.size)) && (d.typ == TYPE_NONE ==> d.size == 0)
  }

  type Owner = map<nat, (nat, nat)>

  /** No block is owned twice, and the bitmap marks exactly the first 64 blocks and the owned ones.
      `owner` names, for each owned block, the one inode and position that holds it. */
  ghost predicate Separated(disk: Disk, owner: Owner)
  {
    && (forall i, p :: 0 <= i < INUM && 0 <= p < NPOS && PosBlk(disk, i, p) != 0 ==>
          PosBlk(disk, i, p) in owner && owner[PosBlk(disk, i, p)] == (i, p))
    && (forall b :: b in owner ==>
          DATA_START <= b < BLK_NUM && owner[b].0 < INUM && owner[b].1 < NPOS && PosBlk(disk, owner[b].0, owner[b].1) == b)
    && (forall b :: 0 <= b < BLK_NUM ==> (BitAt(disk, b) <==> b < DATA_START || b in owner))
  }

  ghost predicate SameFile(disk: Disk, disk': Disk, i: nat)
    requires i < INUM
  {
    && DinodeAt(disk', i) == DinodeAt(disk, i)
    && (forall p :: 0 <= p < NPOS ==>
          PosBlk(disk', i, p) == PosBlk(disk, i, p) && At(disk', PosBlk(disk, i, p)) == At(disk, PosBlk(disk, i, p)))
  }

  lemma SameFileSame(disk: Disk, disk': Disk, i: nat)
    requires i < INUM && SameFile(disk, disk', i)
    ensures Sized(disk, i) ==> Sized(disk', i) && Contents(disk', i) == Contents(disk, i)
    ensures forall n :: Shape(disk, i, n) ==> Shape(disk', i, n)
  {
    forall k | 0 <= k < MAX_BLKS
      ensures PosBlk(disk', i, DataPos(k)) == PosBlk(disk, i, DataPos(k))
      ensures FileBlk(disk', i, k) == FileBlk(disk, i, k)
    {
    }
    forall n | Shape(disk, i, n)
      ensures Shape(disk', i, n)
    {
    }
  }

  lemma SameFileTrans(d0: Disk, d1: Disk, d2: Disk, i: nat)
    requires i < INUM && SameFile(d0, d1, i) && SameFile(d1, d2, i)
    ensures SameFile(d0, d2, i)
  {
  }
}
