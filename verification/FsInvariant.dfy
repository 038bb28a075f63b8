/** What each disk update of the file system does to the ownership of blocks and to the contents of files. */
module FsInvariant {
  import opened Bytes
  import opened BlockDevice
  import opened FsLayout

  // ---------------------------------------------------------------- what is left alone

  lemma DinodeFrame(disk: Disk, disk': Disk, i: nat)
    requires i < INUM && disk'[DinodeBlk(i)] == disk[DinodeBlk(i)]
    ensures DinodeAt(disk', i) == DinodeAt(disk, i)
  {
  }

  lemma PosFrame(disk: Disk, disk': Disk, i: nat, p: nat)
    requires i < INUM && p < NPOS
    requires DinodeAt(disk', i) == DinodeAt(disk, i)
    requires At(disk', IndexBlk(disk, i)) == At(disk, IndexBlk(disk, i))
    ensures PosBlk(disk', i, p) == PosBlk(disk, i, p)
  {
    hide DinodeAt, GetU32;
  }

  lemma BitFrame(disk: Disk, disk': Disk, b: nat)
    requires b < BLK_NUM && disk'[BITMAP] == disk[BITMAP]
    ensures BitAt(disk', b) <==> BitAt(disk, b)
  {
    hide Bit;
  }

  lemma IndexPos(disk: Disk, i: nat)
    requires i < INUM
    ensures PosBlk(disk, i, NDIRECT) == IndexBlk(disk, i)
  {
    hide DinodeAt;
  }

  /** A file whose dinode and own blocks are untouched is untouched. */
  lemma Untouched(disk: Disk, disk': Disk, j: nat, owner: Owner)
    requires Separated(disk, owner) && j < INUM
    requires DinodeAt(disk', j) == DinodeAt(disk, j)
    requires disk'[0] == disk[0]
    requires forall b :: b in owner && owner[b].0 == j ==> disk'[b] == disk[b]
    ensures SameFile(disk, disk', j)
  {
    forall p | 0 <= p < NPOS
      ensures PosBlk(disk', j, p) == PosBlk(disk, j, p)
      ensures At(disk', PosBlk(disk, j, p)) == At(disk, PosBlk(disk, j, p))
    {
      hide DinodeAt, PosBlk, BitAt, IndexBlk;
      IndexPos(disk, j);
      PosFrame(disk, disk', j, p);
    }
  }

  // ---------------------------------------------------------------- allocation

  /** `disk1` is `disk` after allocating block `r`: r was free, is now marked and is all zeros. */
  ghost predicate Allocated(disk: Disk, disk1: Disk, r: nat)
  {
    && DATA_START <= r < BLK_NUM
    && !BitAt(disk, r)
    && disk1[r] == Zeros()
    && (forall b :: 0 <= b < BLK_NUM && b != r && b != BITMAP ==> disk1[b] == disk[b])
    && (forall b :: 0 <= b < BLK_NUM ==> (BitAt(disk1, b) <==> b == r || BitAt(disk, b)))
  }

  lemma AllocKeeps(disk: Disk, disk1: Disk, r: nat, owner: Owner)
    requires Separated(disk, owner) && Allocated(disk, disk1, r)
    ensures r !in owner
    ensures forall i :: 0 <= i < INUM ==> SameFile(disk, disk1, i)
  {
    hide DinodeAt, PosBlk, BitAt;
    forall i | 0 <= i < INUM
      ensures SameFile(disk, disk1, i)
    {
      DinodeFrame(disk, disk1, i);
      Untouched(disk, disk1, i, owner);
    }
  }

  /** The common core of linking a fresh block into a file at a position that was empty. */
  lemma LinkSeparated(disk: Disk, disk2: Disk, r: nat, i: nat, p: nat, owner: Owner)
    requires Separated(disk, owner) && DATA_START <= r < BLK_NUM && r !in owner
    requires i < INUM && p < NPOS && PosBlk(disk, i, p) == 0
    requires forall j :: 0 <= j < INUM && j != i ==> SameFile(disk, disk2, j)
    requires forall q :: 0 <= q < NPOS ==> PosBlk(disk2, i, q) == if q == p then r else PosBlk(disk, i, q)
    requires forall b :: 0 <= b < BLK_NUM ==> (BitAt(disk2, b) <==> b == r || BitAt(disk, b))
    ensures Separated(disk2, owner[r := (i, p)])
  {
    hide PosBlk, BitAt, DinodeAt, At;
    var owner2 := owner[r := (i, p)];
    forall j, q | 0 <= j < INUM && 0 <= q < NPOS
      ensures PosBlk(disk2, j, q) == if (j, q) == (i, p) then r else PosBlk(disk, j, q)
    {
      assert j != i ==> SameFile(disk, disk2, j);
    }
    forall b | b in owner2
      ensures DATA_START <= b < BLK_NUM && owner2[b].0 < INUM && owner2[b].1 < NPOS
      ensures PosBlk(disk2, owner2[b].0, owner2[b].1) == b
    {
      if b != r {
        assert PosBlk(disk, owner[b].0, owner[b].1) == b;
      }
    }
  }

  /** From `disk` to `disk2`, inode `i` gained the zeroed block `r` at position `p`; all else is as before. */
  ghost predicate Grown(disk: Disk, disk2: Disk, i: nat, p: nat, r: nat)
    requires i < INUM && p < NPOS
  {
    && (forall j :: 0 <= j < INUM && j != i ==> SameFile(disk, disk2, j))
    && (forall q :: 0 <= q < NPOS ==> PosBlk(disk2, i, q) == if q == p then r else PosBlk(disk, i, q))
    && (forall q :: 0 <= q < NPOS && q != NDIRECT && PosBlk(disk, i, q) != 0 ==>
          At(disk2, PosBlk(disk, i, q)) == At(disk, PosBlk(disk, i, q)))
    && r < BLK_NUM && disk2[r] == Zeros()
  }

  lemma ZeroBlockWords(k: nat)
    requires k < NINDIRECT
    ensures GetU32(Zeros(), 4 * k) == 0
  {
  }

  /** The positions of a file after slot `p` of its dinode got block `r`. */
  lemma PosOfNewSlot(disk: Disk, disk2: Disk, r: u32, i: nat, p: nat, q: nat)
    requires i < INUM && p <= NDIRECT && q < NPOS && r < BLK_NUM
    requires PosBlk(disk, i, p) == 0
    requires DinodeAt(disk2, i) == DinodeAt(disk, i).(addrs := DinodeAt(disk, i).addrs[p := r])
    requires p == NDIRECT ==> disk2[r] == Zeros()
    requires p != NDIRECT ==> At(disk2, IndexBlk(disk, i)) == At(disk, IndexBlk(disk, i))
    ensures PosBlk(disk2, i, q) == if q == p then r else PosBlk(disk, i, q)
  {
    hide DinodeAt, GetU32;
    if q > NDIRECT {
      ZeroBlockWords(q - NDIRECT - 1);
    }
  }

  /** Storing a fresh block in a dinode slot, direct or index, and writing the dinode back. */
  lemma LinkDinode(disk: Disk, disk1: Disk, r: nat, i: nat, p: nat, owner: Owner) returns (disk2: Disk)
    requires Separated(disk, owner) && Allocated(disk, disk1, r)
    requires i < INUM && p <= NDIRECT && PosBlk(disk, i, p) == 0
    ensures disk2 == WriteDinode(disk1, i, DinodeAt(disk, i).(addrs := DinodeAt(disk, i).addrs[p := r]))
    ensures DinodeAt(disk2, i) == DinodeAt(disk, i).(addrs := DinodeAt(disk, i).addrs[p := r])
    ensures Separated(disk2, owner[r := (i, p)])
    ensures Grown(disk, disk2, i, p, r)
  {
    hide DinodeAt, PosBlk, BitAt, EncDinode, WriteDinode, IndexBlk;
    assert p < |DinodeAt(disk, i).addrs|;
    var d := DinodeAt(disk, i).(addrs := DinodeAt(disk, i).addrs[p := r]);
    disk2 := WriteDinode(disk1, i, d);
    LinkDinodeBlocks(disk, disk1, r, i, d, disk2);
    AllocKeeps(disk, disk1, r, owner);
    forall j | 0 <= j < INUM && j != i
      ensures SameFile(disk, disk2, j)
    {
      Untouched(disk, disk2, j, owner);
    }
    forall q | 0 <= q < NPOS
      ensures PosBlk(disk2, i, q) == if q == p then r else PosBlk(disk, i, q)
    {
      IndexPos(disk, i);
      PosOfNewSlot(disk, disk2, r, i, p, q);
    }
    LinkSeparated(disk, disk2, r, i, p, owner);
  }

  lemma WriteDinodeBlocks(disk: Disk, i: nat, d: Dinode)
    requires i < INUM
    ensures forall b :: (b == 0 || b == BITMAP || DATA_START <= b < BLK_NUM) ==> WriteDinode(disk, i, d)[b] == disk[b]
  {
    hide EncDinode;
  }

  lemma LinkDinodeBlocks(disk: Disk, disk1: Disk, r: nat, i: nat, d: Dinode, disk2: Disk)
    requires Allocated(disk, disk1, r) && i < INUM
    requires disk2 == WriteDinode(disk1, i, d)
    ensures forall b :: (b == 0 || DATA_START <= b < BLK_NUM) ==> disk2[b] == if b == r then Zeros() else disk[b]
    ensures forall b :: 0 <= b < BLK_NUM ==> (BitAt(disk2, b) <==> b == r || BitAt(disk, b))
    ensures forall j :: 0 <= j < INUM ==> DinodeAt(disk2, j) == if j == i then d else DinodeAt(disk, j)
  {
    hide DinodeAt, PosBlk, BitAt, EncDinode;
    forall b | 0 <= b < BLK_NUM
      ensures BitAt(disk2, b) <==> b == r || BitAt(disk, b)
    {
      BitFrame(disk1, disk2, b);
    }
    forall j | 0 <= j < INUM
      ensures DinodeAt(disk2, j) == if j == i then d else DinodeAt(disk, j)
    {
      DinodeFrame(disk, disk1, j);
      DinodeOfWrite(disk1, i, d, j);
    }
  }

  /** The positions of a file after entry `k` of its index block got block `r`. */
  lemma PosOfNewEntry(disk: Disk, disk2: Disk, r: u32, i: nat, k: nat, q: nat)
    requires i < INUM && k < NINDIRECT && q < NPOS
    requires DinodeAt(disk2, i) == DinodeAt(disk, i)
    requires DATA_START <= IndexBlk(disk, i) < BLK_NUM
    requires disk2[IndexBlk(disk, i)] == Patch(disk[IndexBlk(disk, i)], 4 * k, PutU32(r))
    ensures PosBlk(disk2, i, q) == if q == NDIRECT + 1 + k then r else PosBlk(disk, i, q)
  {
    hide DinodeAt, GetU32, PutU32;
    var b := disk[IndexBlk(disk, i)];
    if q == NDIRECT + 1 + k {
      GetPutU32(b, 4 * k, r);
    } else if q > NDIRECT {
      GetPatchOther(b, 4 * k, PutU32(r), 4 * (q - NDIRECT - 1));
    }
  }

  /** Storing a fresh block in an entry of the index block. */
  lemma LinkEntry(disk: Disk, disk1: Disk, r: nat, i: nat, k: nat, owner: Owner) returns (disk2: Disk)
    requires Separated(disk, owner) && Allocated(disk, disk1, r)
    requires i < INUM && k < NINDIRECT && IndexBlk(disk, i) != 0 && PosBlk(disk, i, NDIRECT + 1 + k) == 0
    ensures IndexBlk(disk, i) < BLK_NUM
    ensures disk2 == WriteBlk(disk1, IndexBlk(disk, i), 4 * k, PutU32(r))
    ensures DinodeAt(disk2, i) == DinodeAt(disk, i)
    ensures Separated(disk2, owner[r := (i, NDIRECT + 1 + k)])
    ensures Grown(disk, disk2, i, NDIRECT + 1 + k, r)
  {
    hide DinodeAt, PosBlk, BitAt, PutU32, IndexBlk;
    var p := NDIRECT + 1 + k;
    var ib := IndexBlk(disk, i);
    IndexPos(disk, i);
    AllocKeeps(disk, disk1, r, owner);
    assert owner[ib] == (i, NDIRECT);
    disk2 := WriteBlk(disk1, ib, 4 * k, PutU32(r));
    forall j | 0 <= j < INUM
      ensures DinodeAt(disk2, j) == DinodeAt(disk, j)
    {
      DinodeFrame(disk, disk2, j);
    }
    forall j | 0 <= j < INUM && j != i
      ensures SameFile(disk, disk2, j)
    {
      Untouched(disk, disk2, j, owner);
    }
    forall q | 0 <= q < NPOS
      ensures PosBlk(disk2, i, q) == if q == p then r else PosBlk(disk, i, q)
    {
      PosOfNewEntry(disk, disk2, r, i, k, q);
    }
    forall b | 0 <= b < BLK_NUM
      ensures BitAt(disk2, b) <==> b == r || BitAt(disk, b)
    {
      BitFrame(disk1, disk2, b);
    }
    LinkSeparated(disk, disk2, r, i, p, owner);
  }

  // ---------------------------------------------------------------- writing

  /** Separation depends on positions and bits only. */
  lemma SeparatedFrame(disk: Disk, disk2: Disk, i: nat, owner: Owner)
    requires Separated(disk, owner) && i < INUM
    requires forall j :: 0 <= j < INUM && j != i ==> SameFile(disk, disk2, j)
    requires forall q :: 0 <= q < NPOS ==> PosBlk(disk2, i, q) == PosBlk(disk, i, q)
    requires forall b :: 0 <= b < BLK_NUM ==> (BitAt(disk2, b) <==> BitAt(disk, b))
    ensures Separated(disk2, owner)
  {
    hide PosBlk, BitAt, DinodeAt, At;
    forall j, q | 0 <= j < INUM && 0 <= q < NPOS
      ensures PosBlk(disk2, j, q) == PosBlk(disk, j, q)
    {
      assert j != i ==> SameFile(disk, disk2, j);
    }
  }

  /** Writing inside a data block changes that block of that file only. */
  lemma DataWrite(disk: Disk, i: nat, k: nat, off: nat, src: seq<byte>, owner: Owner) returns (disk2: Disk)
    requires Separated(disk, owner)
    requires i < INUM && k < MAX_BLKS && PosBlk(disk, i, DataPos(k)) != 0 && off + |src| <= BLK_SIZE
    ensures PosBlk(disk, i, DataPos(k)) < BLK_NUM
    ensures disk2 == WriteBlk(disk, PosBlk(disk, i, DataPos(k)), off, src)
    ensures Separated(disk2, owner)
    ensures forall j :: 0 <= j < INUM && j != i ==> SameFile(disk, disk2, j)
    ensures DinodeAt(disk2, i) == DinodeAt(disk, i)
    ensures forall q :: 0 <= q < NPOS ==> PosBlk(disk2, i, q) == PosBlk(disk, i, q)
    ensures forall m :: 0 <= m < MAX_BLKS ==>
      FileBlk(disk2, i, m) == if m == k then Patch(FileBlk(disk, i, k), off, src) else FileBlk(disk, i, m)
  {
    hide DinodeAt, PosBlk, BitAt, IndexBlk;
    var b := PosBlk(disk, i, DataPos(k));
    assert owner[b] == (i, DataPos(k));
    disk2 := WriteBlk(disk, b, off, src);
    forall j | 0 <= j < INUM
      ensures DinodeAt(disk2, j) == DinodeAt(disk, j)
    {
      DinodeFrame(disk, disk2, j);
    }
    forall j | 0 <= j < INUM && j != i
      ensures SameFile(disk, disk2, j)
    {
      Untouched(disk, disk2, j, owner);
    }
    forall q | 0 <= q < NPOS
      ensures PosBlk(disk2, i, q) == PosBlk(disk, i, q)
    {
      IndexPos(disk, i);
      PosFrame(disk, disk2, i, q);
    }
    forall c | 0 <= c < BLK_NUM
      ensures BitAt(disk2, c) <==> BitAt(disk, c)
    {
      BitFrame(disk, disk2, c);
    }
    SeparatedFrame(disk, disk2, i, owner);
    forall m | 0 <= m < MAX_BLKS
      ensures FileBlk(disk2, i, m) == if m == k then Patch(FileBlk(disk, i, k), off, src) else FileBlk(disk, i, m)
    {
      assert m != k ==> PosBlk(disk, i, DataPos(m)) != b;
    }
  }

  /** Changing only the header of a dinode (type, device, size). */
  lemma HeaderWrite(disk: Disk, i: nat, d: Dinode, owner: Owner) returns (disk2: Disk)
    requires Separated(disk, owner) && i < INUM && d.addrs == DinodeAt(disk, i).addrs
    ensures disk2 == WriteDinode(disk, i, d)
    ensures Separated(disk2, owner)
    ensures forall j :: 0 <= j < INUM && j != i ==> SameFile(disk, disk2, j)
    ensures DinodeAt(disk2, i) == d
    ensures forall q :: 0 <= q < NPOS ==>
      PosBlk(disk2, i, q) == PosBlk(disk, i, q) && At(disk2, PosBlk(disk, i, q)) == At(disk, PosBlk(disk, i, q))
  {
    hide DinodeAt, PosBlk, BitAt, WriteDinode, IndexBlk;
    disk2 := WriteDinode(disk, i, d);
    WriteDinodeBlocks(disk, i, d);
    forall j | 0 <= j < INUM
      ensures DinodeAt(disk2, j) == if j == i then d else DinodeAt(disk, j)
    {
      DinodeOfWrite(disk, i, d, j);
    }
    forall j | 0 <= j < INUM && j != i
      ensures SameFile(disk, disk2, j)
    {
      Untouched(disk, disk2, j, owner);
    }
    forall q | 0 <= q < NPOS
      ensures PosBlk(disk2, i, q) == PosBlk(disk, i, q)
    {
      IndexPos(disk, i);
      SameAddrs(disk, disk2, i, q);
    }
    forall c | 0 <= c < BLK_NUM
      ensures BitAt(disk2, c) <==> BitAt(disk, c)
    {
      BitFrame(disk, disk2, c);
    }
    SeparatedFrame(disk, disk2, i, owner);
  }

  lemma SameAddrs(disk: Disk, disk': Disk, i: nat, p: nat)
    requires i < INUM && p < NPOS
    requires DinodeAt(disk', i).addrs == DinodeAt(disk, i).addrs
    requires At(disk', IndexBlk(disk, i)) == At(disk, IndexBlk(disk, i))
    ensures PosBlk(disk', i, p) == PosBlk(disk, i, p)
  {
    hide DinodeAt, GetU32;
  }

  // ---------------------------------------------------------------- freeing

  ghost function HeldBy(owner: Owner, i: nat): set<nat> {
    set blk | blk in owner && owner[blk].0 == i
  }

  ghost function Without(owner: Owner, i: nat): Owner {
    owner - HeldBy(owner, i)
  }

  ghost predicate Holds(disk: Disk, i: nat, b: nat)
    requires i < INUM
  {
    b != 0 && exists p :: 0 <= p < NPOS && PosBlk(disk, i, p) == b
  }

  lemma NoAddrsNoBlocks(disk: Disk, i: nat, p: nat)
    requires i < INUM && p < NPOS
    requires forall q :: 0 <= q <= NDIRECT ==> DinodeAt(disk, i).addrs[q] == 0
    ensures PosBlk(disk, i, p) == 0
  {
    hide DinodeAt;
  }

  /** Clearing the bits of all blocks of inode `i` and writing back its emptied dinode. */
  lemma FreeFile(disk: Disk, disk1: Disk, i: nat, d: Dinode, owner: Owner) returns (disk2: Disk)
    requires Separated(disk, owner) && i < INUM
    requires forall b :: 0 <= b < BLK_NUM && b != BITMAP ==> disk1[b] == disk[b]
    requires forall b :: 0 <= b < BLK_NUM ==> (BitAt(disk1, b) <==> BitAt(disk, b) && !Holds(disk, i, b))
    requires forall p :: 0 <= p <= NDIRECT ==> d.addrs[p] == 0
    ensures disk2 == WriteDinode(disk1, i, d)
    ensures Separated(disk2, Without(owner, i))
    ensures forall j :: 0 <= j < INUM && j != i ==> SameFile(disk, disk2, j)
    ensures DinodeAt(disk2, i) == d && Shape(disk2, i, 0)
  {
    hide DinodeAt, PosBlk, BitAt, WriteDinode;
    disk2 := WriteDinode(disk1, i, d);
    WriteDinodeBlocks(disk1, i, d);
    forall j | 0 <= j < INUM
      ensures DinodeAt(disk2, j) == if j == i then d else DinodeAt(disk, j)
    {
      DinodeOfWrite(disk1, i, d, j);
      DinodeFrame(disk, disk1, j);
    }
    forall j | 0 <= j < INUM && j != i
      ensures SameFile(disk, disk2, j)
    {
      Untouched(disk, disk2, j, owner);
    }
    forall p | 0 <= p < NPOS
      ensures PosBlk(disk2, i, p) == 0
    {
      NoAddrsNoBlocks(disk2, i, p);
    }
    forall b | 0 <= b < BLK_NUM
      ensures BitAt(disk2, b) <==> BitAt(disk, b) && !Holds(disk, i, b)
    {
      BitFrame(disk1, disk2, b);
    }
    FreeSeparated(disk, disk2, i, owner);
  }

  lemma FreeSeparated(disk: Disk, disk2: Disk, i: nat, owner: Owner)
    requires Separated(disk, owner) && i < INUM
    requires forall j :: 0 <= j < INUM && j != i ==> SameFile(disk, disk2, j)
    requires forall p :: 0 <= p < NPOS ==> PosBlk(disk2, i, p) == 0
    requires forall b :: 0 <= b < BLK_NUM ==> (BitAt(disk2, b) <==> BitAt(disk, b) && !Holds(disk, i, b))
    ensures Separated(disk2, Without(owner, i))
  {
    hide DinodeAt, PosBlk, BitAt, At;
    var owner2 := Without(owner, i);
    forall j, p | 0 <= j < INUM && 0 <= p < NPOS && j != i
      ensures PosBlk(disk2, j, p) == PosBlk(disk, j, p)
    {
      assert SameFile(disk, disk2, j);
    }
    forall j, p | 0 <= j < INUM && 0 <= p < NPOS && PosBlk(disk2, j, p) != 0
      ensures PosBlk(disk2, j, p) in owner2 && owner2[PosBlk(disk2, j, p)] == (j, p)
    {
    }
    forall b | b in owner2
      ensures PosBlk(disk2, owner2[b].0, owner2[b].1) == b
    {
      assert PosBlk(disk, owner[b].0, owner[b].1) == b;
    }
    forall b | 0 <= b < BLK_NUM
      ensures BitAt(disk2, b) <==> b < DATA_START || b in owner2
    {
      if b in owner && owner[b].0 == i {
        assert PosBlk(disk, i, owner[b].1) == b;
      }
    }
  }
}
