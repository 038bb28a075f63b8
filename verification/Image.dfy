/** The disk image as utils/mkfs.c builds it: allocation by counters, files written by appending. What it builds is a
    file system in the kernel's sense. */
module Image {
  import opened Bytes
  import opened BlockDevice
  import opened FsLayout
  import opened FsInvariant
  import opened FileSystem
  import opened PathOps

  // ---------------------------------------------------------------- what stays true while the image is built

  /** Blocks from nextBlk on are zero and nobody's, inodes from nextInode on are free. */
  ghost predicate Unused(disk: Disk, owner: Owner, nextBlk: nat, nextInode: nat) {
    && DATA_START <= nextBlk <= BLK_NUM && 1 <= nextInode <= INUM
    && (forall b :: nextBlk <= b < BLK_NUM ==> disk[b] == Zeros() && b !in owner)
    && (forall i :: nextInode <= i < INUM ==> DinodeAt(disk, i) == ZeroDinode)
  }

  /** What a change to a file already there leaves unused. */
  lemma UnusedAfter(disk: Disk, disk2: Disk, owner: Owner, owner2: Owner, i: nat, nextBlk: nat, nextBlk2: nat,
          nextInode: nat)
    requires Unused(disk, owner, nextBlk, nextInode) && i < nextInode && nextBlk <= nextBlk2 <= BLK_NUM
    requires forall j :: 0 <= j < INUM && j != i ==> SameFile(disk, disk2, j)
    requires forall b :: nextBlk2 <= b < BLK_NUM ==> disk2[b] == disk[b] && (b in owner2 ==> b in owner)
    ensures Unused(disk2, owner2, nextBlk2, nextInode)
  {
    hide DinodeAt, PosBlk, At;
    forall j | nextInode <= j < INUM
      ensures DinodeAt(disk2, j) == ZeroDinode
    {
      assert SameFile(disk, disk2, j);
    }
  }

  /** The byte that balloc writes back sets the bit of its block and no other. */
  lemma SetBitInByte(disk: Disk, b: nat)
    requires b < BLK_NUM
    ensures SetBit(disk[BITMAP][b / 8], b % 8) < 256
    ensures forall c :: 0 <= c < BLK_NUM ==>
      (BitAt(WriteBlk(disk, BITMAP, b / 8, [SetBit(disk[BITMAP][b / 8], b % 8)]), c) <==> c == b || BitAt(disk, c))
  {
    hide Bit, SetBit;
    Powers();
    var prev := disk[BITMAP][b / 8];
    SetBitBound(prev, b % 8, 8);
    var disk1 := WriteBlk(disk, BITMAP, b / 8, [SetBit(prev, b % 8)]);
    forall c | 0 <= c < BLK_NUM
      ensures BitAt(disk1, c) <==> c == b || BitAt(disk, c)
    {
      if c / 8 == b / 8 {
        BitOfSetBit(prev, b % 8, c % 8);
      }
    }
  }

  lemma NotOwnedNotMarked(disk: Disk, owner: Owner, b: nat)
    requires Separated(disk, owner) && DATA_START <= b < BLK_NUM && b !in owner
    ensures !BitAt(disk, b)
  {
    hide PosBlk, BitAt;
  }

  function BlockOf(boot: seq<Block>, b: nat): Block {
    if b < |boot| then boot[b] else Zeros()
  }

  class Image {
    const img: array<Block>
    var nextBlk: nat
    var nextInode: nat
    ghost var owner: Owner

    ghost predicate Core()
      reads this, img
    {
      && img.Length == BLK_NUM && Separated(img[..], owner) && Unused(img[..], owner, nextBlk, nextInode)
    }

    /** Between two appends every file has just the blocks its size calls for. */
    ghost predicate Valid()
      reads this, img
    {
      Core() && forall i :: 0 <= i < INUM ==> Sized(img[..], i)
    }

    /** The image file as truncated and mapped: zeros behind the boot sector and the kernel. */
    constructor (boot: seq<Block>)
      requires |boot| == SUPER_BLOCK
      ensures fresh(img) && img.Length == BLK_NUM && nextBlk == DATA_START && nextInode == 1 && owner == map[]
      ensures forall b :: SUPER_BLOCK <= b < BLK_NUM ==> img[b] == Zeros()
    {
      img := new Block[BLK_NUM](b => BlockOf(boot, b));
      nextBlk, nextInode, owner := DATA_START, 1, map[];
    }

    method Write(no: nat, off: nat, src: seq<byte>)
      requires img.Length == BLK_NUM && no < BLK_NUM && off + |src| <= BLK_SIZE
      modifies img
      ensures img[..] == WriteBlk(old(img[..]), no, off, src)
    {
      img[no] := Patch(img[no], off, src);
    }

    /** A dinode in the mapped image, and a store to it. */
    function Dinode(no: nat): (d: Dinode)
      requires img.Length == BLK_NUM && no < INUM
      reads img
      ensures d == DinodeAt(img[..], no)
    {
      DecDinode(img[DinodeBlk(no)], DinodeOff(no))
    }

    method SetDinode(no: nat, d: Dinode)
      requires img.Length == BLK_NUM && no < INUM
      modifies img
      ensures img[..] == WriteDinode(old(img[..]), no, d) && img[SUPER_BLOCK] == old(img[SUPER_BLOCK])
    {
      hide EncDinode;
      Write(DinodeBlk(no), DinodeOff(no), EncDinode(d));
    }

    /** balloc: the next block. */
    method Balloc() returns (r: nat)
      requires Core() && nextBlk < BLK_NUM
      modifies this`nextBlk, img
      ensures r == old(nextBlk) && nextBlk == r + 1 && Allocated(old(img[..]), img[..], r)
      ensures img[SUPER_BLOCK] == old(img[SUPER_BLOCK])
    {
      hide BitAt, Bit, SetBit, DinodeAt, PosBlk, Separated;
      ghost var disk := img[..];
      SetBitInByte(disk, nextBlk);
      NotOwnedNotMarked(disk, owner, nextBlk);
      var i := nextBlk / 8;
      Write(BITMAP, i, [SetBit(img[BITMAP][i], nextBlk % 8)]);
      r := nextBlk;
      nextBlk := nextBlk + 1;
    }

    /** file->addrs[p] = balloc() */
    method AllocAddr(no: nat, p: nat) returns (r: u32)
      requires Core() && no < nextInode && p <= NDIRECT && PosBlk(img[..], no, p) == 0 && nextBlk < BLK_NUM
      modifies this`nextBlk, this`owner, img
      ensures img.Length == BLK_NUM && img[SUPER_BLOCK] == old(img[SUPER_BLOCK])
      ensures Core() && nextBlk == old(nextBlk) + 1 && r == old(nextBlk)
      ensures no < INUM && Grown(old(img[..]), img[..], no, p, r)
      ensures DinodeAt(img[..], no).(addrs := DinodeAt(old(img[..]), no).addrs) == DinodeAt(old(img[..]), no)
    {
      hide BitAt, DinodeAt, PosBlk, Separated, WriteDinode, SameFile, DecDinode;
      ghost var disk := img[..];
      r := Balloc();
      AllocKeeps(disk, img[..], r, owner);
      SameDinodeHere(disk, img[..], no);
      ghost var disk2 := LinkDinode(disk, img[..], r, no, p, owner);
      var d := Dinode(no);
      WriteDinodeBlocks(img[..], no, d.(addrs := d.addrs[p := r]));
      SetDinode(no, d.(addrs := d.addrs[p := r]));
      ghost var owner2 := owner[r := (no, p)];
      UnusedAfter(disk, img[..], owner, owner2, no, r, nextBlk, nextInode);
      owner := owner2;
    }

    /** indirect[e] = balloc() */
    method AllocEntry(no: nat, ib: u32, e: nat) returns (r: u32)
      requires Core() && no < nextInode && e < NINDIRECT && nextBlk < BLK_NUM
      requires ib != 0 && ib == PosBlk(img[..], no, NDIRECT) && PosBlk(img[..], no, NDIRECT + 1 + e) == 0
      modifies this`nextBlk, this`owner, img
      ensures img.Length == BLK_NUM && img[SUPER_BLOCK] == old(img[SUPER_BLOCK])
      ensures Core() && nextBlk == old(nextBlk) + 1 && r == old(nextBlk)
      ensures no < INUM && Grown(old(img[..]), img[..], no, NDIRECT + 1 + e, r)
      ensures DinodeAt(img[..], no) == DinodeAt(old(img[..]), no)
    {
      hide BitAt, DinodeAt, PosBlk, Separated, SameFile, PutU32, IndexBlk;
      ghost var disk := img[..];
      OwnedRange(disk, owner, no, NDIRECT);
      IndexPos(disk, no);
      r := Balloc();
      ghost var disk2 := LinkEntry(disk, img[..], r, no, e, owner);
      Write(ib, 4 * e, PutU32(r));
      ghost var owner2 := owner[r := (no, NDIRECT + 1 + e)];
      UnusedAfter(disk, img[..], owner, owner2, no, r, nextBlk, nextInode);
      owner := owner2;
    }

    /** ialloc: the next inode, an empty file of the given type. */
    method Ialloc(typ: u32) returns (r: nat)
      requires Valid() && nextInode < INUM && typ != TYPE_NONE
      modifies this`nextInode, img
      ensures Valid() && r == old(nextInode) && nextInode == r + 1 && img[SUPER_BLOCK] == old(img[SUPER_BLOCK])
      ensures InodeTaken(old(img[..]), img[..], r, typ)
    {
      hide DinodeAt, PosBlk, BitAt, WriteDinode, SameFile, Separated, DecDinode, Sized;
      ghost var disk := img[..];
      OneInodeLess(disk, owner, nextBlk, nextInode);
      ghost var table := seq(INODE_NUM, _ => Inode(0, 0, false, ZeroDinode));
      DiallocEffect(table, disk, nextInode, typ, owner);
      WriteDinodeBlocks(disk, nextInode, ZeroDinode.(typ := typ));
      SetDinode(nextInode, Dinode(nextInode).(typ := typ));
      r := nextInode;
      nextInode := nextInode + 1;
      UnusedAfter(disk, img[..], owner, owner, r, nextBlk, nextBlk, nextInode);
    }

    /** iwalk: the k-th block of a file that has n, allocated if it is the next one. */
    method Iwalk(no: nat, k: nat, ghost n: nat) returns (blk: u32)
      requires Core() && no < nextInode && Shape(img[..], no, n) && k <= n && k < MAX_BLKS
      requires k == n ==> nextBlk + NewBlocks(n) <= BLK_NUM
      modifies this`nextBlk, this`owner, img
      ensures img.Length == BLK_NUM && img[SUPER_BLOCK] == old(img[SUPER_BLOCK])
      ensures Core() && no < INUM && blk == PosBlk(img[..], no, DataPos(k)) && blk != 0
      ensures k < n ==> img[..] == old(img[..]) && nextBlk == old(nextBlk) && owner == old(owner)
      ensures k == n ==> Extended(old(img[..]), img[..], no, n) && nextBlk == old(nextBlk) + NewBlocks(n)
    {
      hide DinodeAt, PosBlk, BitAt, WriteDinode, SameFile, Separated, Extended, DecDinode, Unused;
      ghost var disk := img[..];
      InodeRange(disk, owner, nextBlk, nextInode);
      DirectPos(disk, no);
      assert PosBlk(disk, no, DataPos(k)) != 0 <==> k < n;
      if k < NDIRECT {
        blk := Dinode(no).addrs[k];
        if blk == 0 {
          blk := AllocAddr(no, k);
          GrownData(disk, img[..], no, n, blk);
        }
        return;
      }
      var e := k - NDIRECT;
      var indirect := Dinode(no).addrs[NDIRECT];
      if indirect == 0 {
        indirect := AllocAddr(no, NDIRECT);
        GrownIndex(disk, img[..], no, n, indirect);
      }
      ghost var disk1 := img[..];
      DirectPos(disk1, no);
      OwnedRange(disk1, owner, no, NDIRECT);
      blk := GetU32(img[indirect][e * 4..e * 4 + 4], 0);
      EntryPos(disk1, no, e);
      if blk == 0 {
        blk := AllocEntry(no, indirect, e);
        GrownData(disk1, img[..], no, n, blk);
        if n == NDIRECT {
          ExtendedAfterIndex(disk, disk1, img[..], no, indirect);
        }
      }
    }

    /** One turn of iappend's loop: a piece that fits the block at the end of the file. */
    method AppendPiece(no: nat, k: nat, off: nat, piece: seq<byte>, ghost size: nat)
      requires Valid() && no < nextInode && size == DinodeAt(img[..], no).size && DinodeAt(img[..], no).typ != TYPE_NONE
      requires size == BLK_SIZE * k + off && off < BLK_SIZE && 0 < |piece| <= BLK_SIZE - off && size + |piece| <= MAX_SIZE
      requires off == 0 ==> nextBlk + NewBlocks(k) <= BLK_NUM
      modifies this`nextBlk, this`owner, img
      ensures img.Length == BLK_NUM && img[SUPER_BLOCK] == old(img[SUPER_BLOCK])
      ensures Valid() && nextBlk == old(nextBlk) + (if off == 0 then NewBlocks(k) else 0)
      ensures Appended(old(img[..]), img[..], no, piece)
    {
      hide DinodeAt, PosBlk, BitAt, WriteDinode, SameFile, Separated, Extended, DecDinode, Unused, Contents, FileBlk,
        Holding, Shape;
      InodeRange(img[..], owner, nextBlk, nextInode);
      ghost var disk, n := img[..], NumBlocks(size);
      SizedFacts(disk, no);
      Boundary(size, k, off, |piece|);
      var blk := Iwalk(no, k, n);
      ghost var disk1 := img[..];
      Walked(disk, disk1, no, k, n, off);
      ghost var disk2 := DataWrite(disk1, no, k, off, piece, owner);
      UnusedWrite(disk1, owner, no, k, nextBlk, nextInode);
      Write(blk, off, piece);
      UnusedAfter(disk1, disk2, owner, owner, no, nextBlk, nextBlk, nextInode);
      var d := Dinode(no);
      ghost var disk3 := HeaderWrite(disk2, no, d.(size := d.size + |piece|), owner);
      WriteDinodeBlocks(disk2, no, d.(size := d.size + |piece|));
      SetDinode(no, d.(size := d.size + |piece|));
      UnusedAfter(disk2, disk3, owner, owner, no, nextBlk, nextBlk, nextInode);
      PieceAppended(disk, disk1, disk2, disk3, no, k, off, piece);
    }

    /** iappend: the bytes go to the end of the file, and no other file changes. */
    method Iappend(no: nat, buf: seq<byte>)
      requires Valid() && no < nextInode && DinodeAt(img[..], no).typ != TYPE_NONE
      requires DinodeAt(img[..], no).size + |buf| <= MAX_SIZE
      requires var size := DinodeAt(img[..], no).size; nextBlk + Cost(NumBlocks(size), NumBlocks(size + |buf|)) <= BLK_NUM
      modifies this`nextBlk, this`owner, img
      ensures img.Length == BLK_NUM && img[SUPER_BLOCK] == old(img[SUPER_BLOCK])
      ensures Valid() && Appended(old(img[..]), img[..], no, buf)
      ensures var size := DinodeAt(old(img[..]), no).size;
              nextBlk == old(nextBlk) + Cost(NumBlocks(size), NumBlocks(size + |buf|))
    {
      hide DinodeAt, PosBlk, BitAt, WriteDinode, SameFile, Separated, Contents, Sized, Unused, Cost, NumBlocks,
        DecDinode;
      InodeRange(img[..], owner, nextBlk, nextInode);
      ghost var disk, size := img[..], DinodeAt(img[..], no).size;
      NothingAppended(disk, no);
      CostSteps(size, size, size + |buf|);
      var offset: nat, blkNo: nat, done: nat := Dinode(no).size % BLK_SIZE, Dinode(no).size / BLK_SIZE, 0;
      while done < |buf|
        invariant Valid() && 0 <= done <= |buf| && nextInode == old(nextInode) && img[SUPER_BLOCK] == old(img[SUPER_BLOCK])
        invariant Appended(disk, img[..], no, buf[..done])
        invariant done < |buf| ==> size + done == BLK_SIZE * blkNo + offset && offset < BLK_SIZE
        invariant nextBlk + Cost(NumBlocks(size + done), NumBlocks(size + |buf|)) ==
                  old(nextBlk) + Cost(NumBlocks(size), NumBlocks(size + |buf|))
      {
        ghost var here := img[..];
        var writeSize := Min(|buf| - done, BLK_SIZE - offset);
        CostStep(size + done, blkNo, offset, writeSize, size + |buf|);
        AppendedSize(disk, here, no, buf[..done]);
        AppendPiece(no, blkNo, offset, buf[done..done + writeSize], size + done);
        AppendedTwice(disk, here, img[..], no, buf, done, done + writeSize);
        done := done + writeSize;
        offset := 0;
        blkNo := blkNo + 1;
      }
      assert buf[..done] == buf;
      CostSteps(size, size + |buf|, size + |buf|);
    }
  }

  /** Inode t was free and is now an empty file; no other file changed. */
  ghost predicate InodeTaken(disk: Disk, disk2: Disk, t: nat, typ: u32) {
    && t < INUM && DinodeAt(disk, t) == ZeroDinode && DinodeAt(disk2, t) == ZeroDinode.(typ := typ)
    && forall j :: 0 <= j < INUM && j != t ==> SameFile(disk, disk2, j)
  }

  lemma OneInodeLess(disk: Disk, owner: Owner, nextBlk: nat, nextInode: nat)
    requires Unused(disk, owner, nextBlk, nextInode) && nextInode < INUM
    ensures Unused(disk, owner, nextBlk, nextInode + 1) && DinodeAt(disk, nextInode) == ZeroDinode
  {
    hide DinodeAt;
  }

  /** The file of inode i has got `more` at its end, its type is the same, and all other files are as they were. */
  ghost predicate Appended(disk: Disk, disk2: Disk, i: nat, more: seq<byte>) {
    && i < INUM && DinodeAt(disk, i).size + |more| <= MAX_SIZE
    && Contents(disk2, i) == Contents(disk, i) + more && DinodeAt(disk2, i).size == DinodeAt(disk, i).size + |more|
    && SameHeader(DinodeAt(disk, i), DinodeAt(disk2, i))
    && forall j :: 0 <= j < INUM && j != i ==> SameFile(disk, disk2, j)
  }

  lemma NothingAppended(disk: Disk, i: nat)
    requires i < INUM && Sized(disk, i)
    ensures Appended(disk, disk, i, [])
  {
    hide DinodeAt, PosBlk;
    SizedFacts(disk, i);
    SameFilesRefl(disk, i);
  }

  lemma AppendedSize(disk: Disk, disk2: Disk, i: nat, more: seq<byte>)
    requires Appended(disk, disk2, i, more)
    ensures i < INUM && DinodeAt(disk2, i).size == DinodeAt(disk, i).size + |more| && DinodeAt(disk2, i).typ == DinodeAt(disk, i).typ
  {
    hide DinodeAt, SameFile, Contents;
  }

  lemma AppendedTwice(disk: Disk, disk1: Disk, disk2: Disk, i: nat, buf: seq<byte>, a: nat, b: nat)
    requires a <= b <= |buf| && Appended(disk, disk1, i, buf[..a]) && Appended(disk1, disk2, i, buf[a..b])
    ensures Appended(disk, disk2, i, buf[..b])
  {
    hide DinodeAt, SameFile, Contents;
    assert buf[..a] + buf[a..b] == buf[..b];
    assert Contents(disk, i) + buf[..a] + buf[a..b] == Contents(disk, i) + (buf[..a] + buf[a..b]);
    SameFilesTrans(disk, disk1, disk2, i);
  }

  /** A file ends in the middle of its last block or at the end of it. */
  lemma Boundary(size: nat, k: nat, off: nat, len: nat)
    requires size == BLK_SIZE * k + off && off < BLK_SIZE && 0 < len <= BLK_SIZE - off && size + len <= MAX_SIZE
    ensures NumBlocks(size) == (if off == 0 then k else k + 1) && NumBlocks(size + len) == k + 1 && k < MAX_BLKS
  {
  }

  lemma CostSteps(a: nat, b: nat, c: nat)
    ensures a == b ==> Cost(NumBlocks(a), NumBlocks(c)) == Cost(NumBlocks(b), NumBlocks(c))
    ensures b == c ==> Cost(NumBlocks(b), NumBlocks(c)) == 0
  {
  }

  lemma CostStep(size: nat, k: nat, off: nat, len: nat, end: nat)
    requires size == BLK_SIZE * k + off && off < BLK_SIZE && 0 < len <= BLK_SIZE - off && size + len <= end
    ensures Cost(NumBlocks(size), NumBlocks(end)) ==
      (if off == 0 then NewBlocks(k) else 0) + Cost(NumBlocks(size + len), NumBlocks(end))
  {
    assert NumBlocks(size + len) == k + 1 <= NumBlocks(end);
  }

  /** After iwalk the file has the block to write, as much of it as there was before. */
  lemma Walked(disk: Disk, disk1: Disk, i: nat, k: nat, n: nat, off: nat)
    requires i < INUM && k < MAX_BLKS && n == (if off == 0 then k else k + 1) && Shape(disk, i, n)
    requires if k < n then disk1 == disk else Extended(disk, disk1, i, n)
    ensures Shape(disk1, i, k + 1) && PosBlk(disk1, i, DataPos(k)) != 0
    ensures forall m :: 0 <= m < n ==> FileBlk(disk1, i, m) == FileBlk(disk, i, m)
    ensures DinodeAt(disk1, i).(addrs := DinodeAt(disk, i).addrs) == DinodeAt(disk, i)
    ensures forall j :: 0 <= j < INUM && j != i ==> SameFile(disk, disk1, j)
  {
    hide DinodeAt, PosBlk, FileBlk, SameFile;
    SameFilesRefl(disk, i);
  }

  lemma UnusedWrite(disk: Disk, owner: Owner, i: nat, k: nat, nextBlk: nat, nextInode: nat)
    requires Separated(disk, owner) && Unused(disk, owner, nextBlk, nextInode) && i < INUM && k < MAX_BLKS
    requires PosBlk(disk, i, DataPos(k)) != 0
    ensures DATA_START <= PosBlk(disk, i, DataPos(k)) < nextBlk
  {
    hide DinodeAt, PosBlk, BitAt;
    OwnedRange(disk, owner, i, DataPos(k));
  }

  lemma PieceAppended(disk: Disk, disk1: Disk, disk2: Disk, disk3: Disk, i: nat, k: nat, off: nat, piece: seq<byte>)
    requires i < INUM && k < MAX_BLKS && off < BLK_SIZE && 0 < |piece| <= BLK_SIZE - off
    requires var size := DinodeAt(disk, i).size; size == BLK_SIZE * k + off && size + |piece| <= MAX_SIZE
    requires forall j :: 0 <= j < INUM ==> Sized(disk, j)
    requires DinodeAt(disk, i).typ != TYPE_NONE
    requires forall m :: 0 <= m < MAX_BLKS && BLK_SIZE * m < DinodeAt(disk, i).size ==> FileBlk(disk1, i, m) == FileBlk(disk, i, m)
    requires DinodeAt(disk1, i).(addrs := DinodeAt(disk, i).addrs) == DinodeAt(disk, i)
    requires forall j :: 0 <= j < INUM && j != i ==> SameFile(disk, disk1, j) && SameFile(disk1, disk2, j) && SameFile(disk2, disk3, j)
    requires Shape(disk1, i, k + 1) && DinodeAt(disk2, i) == DinodeAt(disk1, i)
    requires forall q :: 0 <= q < NPOS ==> PosBlk(disk2, i, q) == PosBlk(disk1, i, q)
    requires forall m :: 0 <= m < MAX_BLKS ==>
      FileBlk(disk2, i, m) == if m == k then Patch(FileBlk(disk1, i, k), off, piece) else FileBlk(disk1, i, m)
    requires DinodeAt(disk3, i) == DinodeAt(disk2, i).(size := DinodeAt(disk2, i).size + |piece|)
    requires forall q :: 0 <= q < NPOS ==>
      PosBlk(disk3, i, q) == PosBlk(disk2, i, q) && At(disk3, PosBlk(disk2, i, q)) == At(disk2, PosBlk(disk2, i, q))
    ensures Appended(disk, disk3, i, piece) && forall j :: 0 <= j < INUM ==> Sized(disk3, j)
  {
    hide DinodeAt, PosBlk, FileBlk, SameFile, Sized, Contents, At;
    SameFilesTrans(disk, disk1, disk2, i);
    SameFilesTrans(disk, disk2, disk3, i);
    SameBlocks(disk2, disk3, i);
    Boundary(DinodeAt(disk, i).size, k, off, |piece|);
    AppendedBytes(disk, disk3, i, k, off, piece);
    SizedFacts(disk, i);
    AllSized(disk, disk3, i);
  }

  lemma SameBlocks(disk2: Disk, disk3: Disk, i: nat)
    requires i < INUM && forall q :: 0 <= q < NPOS ==>
      PosBlk(disk3, i, q) == PosBlk(disk2, i, q) && At(disk3, PosBlk(disk2, i, q)) == At(disk2, PosBlk(disk2, i, q))
    ensures forall m :: 0 <= m < MAX_BLKS ==> FileBlk(disk3, i, m) == FileBlk(disk2, i, m)
    ensures forall n :: Shape(disk2, i, n) ==> Shape(disk3, i, n)
  {
    hide PosBlk, At;
  }

  lemma AppendedBytes(disk: Disk, disk3: Disk, i: nat, k: nat, off: nat, piece: seq<byte>)
    requires i < INUM && k < MAX_BLKS && off < BLK_SIZE && 0 < |piece| <= BLK_SIZE - off
    requires var size := DinodeAt(disk, i).size; size == BLK_SIZE * k + off && size + |piece| <= MAX_SIZE
    requires DinodeAt(disk3, i).size == DinodeAt(disk, i).size + |piece|
    requires forall m :: 0 <= m < k ==> FileBlk(disk3, i, m) == FileBlk(disk, i, m)
    requires FileBlk(disk3, i, k)[off..off + |piece|] == piece
    requires off > 0 ==> FileBlk(disk3, i, k)[..off] == FileBlk(disk, i, k)[..off]
    ensures Contents(disk3, i) == Contents(disk, i) + piece
  {
    hide DinodeAt, FileBlk;
    var size := DinodeAt(disk, i).size;
    var c, c3 := Contents(disk, i), Contents(disk3, i);
    forall x | 0 <= x < |c3|
      ensures c3[x] == (c + piece)[x]
    {
      assert c3[x] == FileByte(disk3, i, x);
      if x < size {
        assert c[x] == FileByte(disk, i, x);
        if x / BLK_SIZE == k {
          assert FileBlk(disk3, i, k)[..off][x % BLK_SIZE] == FileBlk(disk, i, k)[..off][x % BLK_SIZE];
        }
      } else {
        assert x / BLK_SIZE == k && x % BLK_SIZE == off + (x - size);
        assert FileBlk(disk3, i, k)[off..off + |piece|][x - size] == piece[x - size];
      }
    }
  }

  lemma InodeRange(disk: Disk, owner: Owner, nextBlk: nat, nextInode: nat)
    requires Unused(disk, owner, nextBlk, nextInode)
    ensures 1 <= nextInode <= INUM && DATA_START <= nextBlk <= BLK_NUM
  {
  }

  lemma SameDinodeHere(disk: Disk, disk2: Disk, i: nat)
    requires i < INUM && SameFile(disk, disk2, i)
    ensures DinodeAt(disk2, i) == DinodeAt(disk, i)
  {
    hide DinodeAt, PosBlk;
  }
}
