/** Building an image (utils/mkfs.c): formatting, adding files to the root, and mounting what comes out. */
module Mkfs {
  import opened Bytes
  import opened BlockDevice
  import opened FsLayout
  import opened FsInvariant
  import opened FileSystem
  import opened Directory
  import opened Tree
  import opened Path
  import opened PathOps
  import opened Image

  // ---------------------------------------------------------------- a formatted disk

  lemma {:induction false} ZeroHasNoBit(j: nat)
    ensures !Bit(0, j)
  {
    if j > 0 {
      ZeroHasNoBit(j - 1);
    }
  }

  lemma ZeroDinodeAt(disk: Disk, i: nat)
    requires i < INUM && disk[DinodeBlk(i)] == Zeros()
    ensures DinodeAt(disk, i) == ZeroDinode
  {
    assert DecWords(Zeros(), DinodeOff(i), 16)[3..] == NoAddrs;
  }

  /** The first two words of the bitmap are all ones, the rest of it is zero. */
  function FirstBits(): Block {
    Patch(Patch(Zeros(), 0, PutU32(0xffff_ffff)), 4, PutU32(0xffff_ffff))
  }

  lemma BitOfFirst(disk: Disk, b: nat)
    requires b < BLK_NUM && disk[BITMAP] == FirstBits()
    ensures BitAt(disk, b) <==> b < DATA_START
  {
    hide Bit;
    Powers();
    if b < DATA_START {
      assert disk[BITMAP][b / 8] == 0xff;
      OnesHaveBit(8, b % 8);
    } else {
      assert disk[BITMAP][b / 8] == 0;
      ZeroHasNoBit(b % 8);
    }
  }

  /** No file, no block in use but the first 64. */
  ghost predicate Formatted(disk: Disk) {
    disk[BITMAP] == FirstBits() && forall b :: ISTART <= b < BLK_NUM ==> disk[b] == Zeros()
  }

  lemma FormattedOk(disk: Disk)
    requires Formatted(disk)
    ensures Separated(disk, map[]) && Unused(disk, map[], DATA_START, 1) && forall i :: 0 <= i < INUM ==> Sized(disk, i)
    ensures forall i :: 0 <= i < INUM ==> DinodeAt(disk, i) == ZeroDinode
  {
    hide DinodeAt, PosBlk, BitAt, FirstBits;
    forall i | 0 <= i < INUM
      ensures DinodeAt(disk, i) == ZeroDinode
    {
      ZeroDinodeAt(disk, i);
    }
    forall i, p | 0 <= i < INUM && 0 <= p < NPOS
      ensures PosBlk(disk, i, p) == 0
    {
      NoAddrsNoBlocks(disk, i, p);
    }
    forall b | 0 <= b < BLK_NUM
      ensures BitAt(disk, b) <==> b < DATA_START
    {
      BitOfFirst(disk, b);
    }
  }

  function SuperBytes(): seq<byte> {
    PutU32(BITMAP) + PutU32(ISTART) + PutU32(INUM) + PutU32(ROOT)
  }

  lemma SuperOfBytes(b: seq<byte>)
    requires |b| >= 16 && b[..16] == SuperBytes()
    ensures DecSuper(b) == Layout
  {
    hide PutU32;
    SuperWord(b, 0, BITMAP);
    SuperWord(b, 4, ISTART);
    SuperWord(b, 8, INUM);
    SuperWord(b, 12, ROOT);
  }

  lemma SuperWord(b: seq<byte>, off: nat, v: u32)
    requires off + 4 <= |b| && b[off..off + 4] == PutU32(v)
    ensures GetU32(b, off) == v
  {
    hide PutU32;
    WordOfBytes(v);
    assert b[off..off + 4][0] == b[off] && b[off..off + 4][3] == b[off + 3];
    assert b[off..off + 4][1] == b[off + 1] && b[off..off + 4][2] == b[off + 2];
  }

  /** The super block is nobody's. */
  lemma SuperWrite(disk: Disk, disk2: Disk, owner: Owner, nextBlk: nat, nextInode: nat)
    requires Separated(disk, owner) && Unused(disk, owner, nextBlk, nextInode) && forall i :: 0 <= i < INUM ==> Sized(disk, i)
    requires forall b :: 0 <= b < BLK_NUM && b != SUPER_BLOCK ==> disk2[b] == disk[b]
    ensures Separated(disk2, owner) && Unused(disk2, owner, nextBlk, nextInode) && forall i :: 0 <= i < INUM ==> Sized(disk2, i)
    ensures forall i :: 0 <= i < INUM ==> SameFile(disk, disk2, i)
  {
    hide DinodeAt, PosBlk, BitAt, SameFile, Sized;
    forall i | 0 <= i < INUM
      ensures SameFile(disk, disk2, i) && DinodeAt(disk2, i) == DinodeAt(disk, i) && Sized(disk2, i)
    {
      DinodeFrame(disk, disk2, i);
      Untouched(disk, disk2, i, owner);
      SameFileSame(disk, disk2, i);
    }
    forall b | 0 <= b < BLK_NUM
      ensures BitAt(disk2, b) <==> BitAt(disk, b)
    {
      BitFrame(disk, disk2, b);
    }
    SamePositions(disk, disk2, ROOT);
    SeparatedFrame(disk, disk2, ROOT, owner);
  }

  lemma SamePositions(disk: Disk, disk2: Disk, i: nat)
    requires i < INUM && SameFile(disk, disk2, i)
    ensures forall q :: 0 <= q < NPOS ==> PosBlk(disk2, i, q) == PosBlk(disk, i, q)
  {
    hide DinodeAt, PosBlk, At;
  }

  // ---------------------------------------------------------------- what the image holds

  /** Inode t is a plain file of these bytes. */
  ghost predicate HasFile(disk: Disk, t: nat, bytes: seq<byte>) {
    1 < t < INUM && DinodeAt(disk, t).typ == TYPE_FILE && Contents(disk, t) == bytes
  }

  predicate FileName(name: Name) {
    IsName(name) && SLASH !in name && name != Dot && name != DotDot
  }

  /** The root directory holds `.`, `..` and the given files, and its tree is a tree. */
  ghost predicate Packed(disk: Disk, links: Links, files: map<Name, seq<byte>>, nextInode: nat) {
    && TreeOk(disk, {}, links) && Sized(disk, ROOT)
    && var c := Contents(disk, ROOT);
    && WellDir(c) && |c| == DIRENT * nextInode
    && DirMap(c).Keys == {Dot, DotDot} + files.Keys
    && (forall n :: n in files ==> FileName(n) && DirMap(c)[n] < nextInode && HasFile(disk, DirMap(c)[n], files[n]))
  }

  lemma RootSize(disk: Disk, links: Links, files: map<Name, seq<byte>>, nextInode: nat)
    requires Packed(disk, links, files, nextInode)
    ensures DinodeAt(disk, ROOT).typ == TYPE_DIR && DinodeAt(disk, ROOT).size == DIRENT * nextInode
  {
    hide DinodeAt, Contents, DirMap, WellDir, DirOk, LinkOk;
    ContentsSize(disk, ROOT);
  }

  /** The root right after formatting. */
  lemma EmptyRoot(disk: Disk, owner: Owner, nextBlk: nat)
    requires Unused(disk, owner, nextBlk, 2) && Sized(disk, ROOT)
    requires DinodeAt(disk, ROOT).typ == TYPE_DIR && NewDir(Contents(disk, ROOT), ROOT, ROOT)
    ensures Packed(disk, map[], map[], 2)
  {
    hide DinodeAt, Contents, EntIno, EntName, DirMap;
    var c := Contents(disk, ROOT);
    NewDirMap(c, ROOT, ROOT);
    forall i | Alive(disk, {}, i)
      ensures i == ROOT
    {
    }
  }

  lemma KeepsFile(disk: Disk, disk2: Disk, t: nat, bytes: seq<byte>)
    requires HasFile(disk, t, bytes) && SameFile(disk, disk2, t) && Sized(disk, t)
    ensures HasFile(disk2, t, bytes)
  {
    hide DinodeAt, PosBlk, Contents, Sized;
    SameFileSame(disk, disk2, t);
  }

  ghost predicate Whole(disk: Disk) {
    forall j :: 0 <= j < INUM ==> Sized(disk, j)
  }

  /** Inode t was taken, and then an entry that binds it was put at the end of the root. */
  ghost predicate EntryPut(disk: Disk, disk1: Disk, disk2: Disk, t: nat, name: Name, field: seq<byte>) {
    && 1 < t < INUM && IsName(name) && |field| == DIRENT - 4
    && Whole(disk) && Whole(disk1) && Whole(disk2)
    && InodeTaken(disk, disk1, t, TYPE_FILE)
    && Appended(disk1, disk2, ROOT, Dirent(t, StrCpy(field, name)))
  }

  /** The root after a directory entry for inode t, an empty file, was put at its end. */
  lemma RootGains(disk: Disk, disk1: Disk, disk2: Disk, t: nat, name: Name, field: seq<byte>)
    requires EntryPut(disk, disk1, disk2, t, name, field)
    requires WellDir(Contents(disk, ROOT)) && |Contents(disk, ROOT)| == DIRENT * t && name !in DirMap(Contents(disk, ROOT))
    ensures Created(disk, disk2, ROOT, t, name, t, TYPE_FILE) && Bound(Contents(disk, ROOT), Contents(disk2, ROOT), name, t)
    ensures |Contents(disk2, ROOT)| == DIRENT * (t + 1) && HasFile(disk2, t, [])
    ensures forall j :: 0 <= j < INUM && j != t && j != ROOT ==> SameFile(disk, disk2, j)
  {
    hide DinodeAt, PosBlk, Contents, DirMap, WellDir, CStr, Sized, SameFile, PutU32, StrCpy, Created, Bound;
    var c := Contents(disk, ROOT);
    var ent := Dirent(t, StrCpy(field, name));
    var dirent := PutU32(0) + field;
    assert dirent[4..] == field;
    NotBound(c, name);
    SameFileSame(disk, disk1, ROOT);
    assert Contents(disk2, ROOT) == Splice(c, |c|, ent);
    SameFilesRefl(disk2, t);
    CreatedSteps(disk, disk1, disk2, disk2, ROOT, |c|, name, t, TYPE_FILE, dirent);
    SameFileSame(disk1, disk2, t);
    SameDinode(disk1, disk2, t);
    ContentsSize(disk2, t);
    forall j | 0 <= j < INUM && j != t && j != ROOT
      ensures SameFile(disk, disk2, j)
    {
      SameFileTrans(disk, disk1, disk2, j);
    }
  }

  /** A directory entry for a new, still empty, file at the end of the root. */
  lemma EntryAdded(disk: Disk, disk1: Disk, disk2: Disk, links: Links, files: map<Name, seq<byte>>, t: nat,
          name: Name, field: seq<byte>)
    requires EntryPut(disk, disk1, disk2, t, name, field)
    requires Packed(disk, links, files, t) && FileName(name) && name !in files
    ensures Packed(disk2, links[t := (ROOT, t)], files[name := []], t + 1)
    ensures Bound(Contents(disk, ROOT), Contents(disk2, ROOT), name, t)
  {
    hide DinodeAt, Contents, DirMap, WellDir, Sized, SameFile, TreeOk, PutU32, Created, HasFile, Appended,
      InodeTaken, IsName, StrCpy;
    var c := Contents(disk, ROOT);
    RootGains(disk, disk1, disk2, t, name, field);
    LiveRoot(disk, links);
    assert WellDir(Contents(disk2, ROOT));
    CreateKeepsTree(disk, disk2, {}, links, ROOT, t, name, t, TYPE_FILE);
    forall n | n in files
      ensures HasFile(disk2, DirMap(c)[n], files[n])
    {
      FileInode(disk, DirMap(c)[n], files[n]);
      KeepsFile(disk, disk2, DirMap(c)[n], files[n]);
    }
  }

  lemma FileInode(disk: Disk, t: nat, bytes: seq<byte>)
    requires HasFile(disk, t, bytes)
    ensures 1 < t < INUM
  {
  }

  /** Two names of the root, apart from `.` and `..`, are bound to two inodes. */
  lemma NamesApart(disk: Disk, links: Links, n: Name, m: Name)
    requires TreeOk(disk, {}, links) && WellDir(Contents(disk, ROOT)) && n != m
    requires {n, m} <= DirMap(Contents(disk, ROOT)).Keys && {n, m} !! {Dot, DotDot}
    ensures DirMap(Contents(disk, ROOT))[n] != DirMap(Contents(disk, ROOT))[m]
  {
    hide DinodeAt, Contents, EntIno, EntName, LinkOk, IsName;
    var c := Contents(disk, ROOT);
    assert DirOk(c, ROOT, links);
    var k :| 0 <= k < Len(c) && EntIno(c, k) != 0 && EntName(c, k) == n && DirMap(c)[n] == EntIno(c, k);
    var l :| 0 <= l < Len(c) && EntIno(c, l) != 0 && EntName(c, l) == m && DirMap(c)[m] == EntIno(c, l);
    assert k >= 2 && l >= 2;
  }

  lemma FileGrows(disk: Disk, disk2: Disk, links: Links, t: nat, bytes: seq<byte>, more: seq<byte>)
    requires TreeOk(disk, {}, links) && HasFile(disk, t, bytes) && Appended(disk, disk2, t, more)
    requires forall j :: 0 <= j < INUM ==> Sized(disk, j) && Sized(disk2, j)
    ensures TreeOk(disk2, {}, links) && HasFile(disk2, t, bytes + more) && Contents(disk2, ROOT) == Contents(disk, ROOT)
    ensures forall j :: 0 <= j < INUM && j != t ==> SameFile(disk, disk2, j)
  {
    hide DinodeAt, PosBlk, Contents, Sized, SameFile, TreeOk;
    SameFileSame(disk, disk2, ROOT);
    AsideKeepsTree(disk, disk2, {}, {}, links, t);
  }

  /** Bytes written to a file of the root. */
  lemma BytesAdded(disk: Disk, disk2: Disk, links: Links, files: map<Name, seq<byte>>, nextInode: nat, name: Name,
          t: nat, more: seq<byte>)
    requires Packed(disk, links, files, nextInode) && name in files && t < INUM
    requires WellDir(Contents(disk, ROOT)) && name in DirMap(Contents(disk, ROOT)) && t == DirMap(Contents(disk, ROOT))[name]
    requires forall j :: 0 <= j < INUM ==> Sized(disk, j) && Sized(disk2, j)
    requires Appended(disk, disk2, t, more)
    ensures Packed(disk2, links, files[name := files[name] + more], nextInode)
    ensures Contents(disk2, ROOT) == Contents(disk, ROOT)
  {
    hide DinodeAt, Contents, DirMap, WellDir, Sized, SameFile, TreeOk, HasFile, Appended, EntIno, EntName;
    hide IsName;
    var c := Contents(disk, ROOT);
    var files2 := files[name := files[name] + more];
    FileGrows(disk, disk2, links, t, files[name], more);
    forall n | n in files2
      ensures HasFile(disk2, DirMap(c)[n], files2[n])
    {
      if n != name {
        assert HasFile(disk, DirMap(c)[n], files[n]);
        FileInode(disk, DirMap(c)[n], files[n]);
        NamesApart(disk, links, n, name);
        KeepsFile(disk, disk2, DirMap(c)[n], files[n]);
      }
    }
  }

  lemma NotBound(c: seq<byte>, name: Name)
    requires WellDir(c) && name !in DirMap(c)
    ensures FreeAt(c, name, |c|)
  {
    hide DirMap, EntIno, EntName;
    forall j | 0 <= j < Len(c)
      ensures !BindsAt(c, j, name)
    {
      LookupIsMap(c, j, name);
    }
  }

  lemma LiveRoot(disk: Disk, links: Links)
    requires TreeOk(disk, {}, links)
    ensures LiveDir(disk, {}, ROOT)
  {
  }

  // ---------------------------------------------------------------- init_disk

  /** init_disk: the super block, the first bits, and a root directory that holds `.` and `..`. */
  method InitDisk(im: Image, field: seq<byte>)
    requires im.img.Length == BLK_NUM && |field| == DIRENT - 4
    requires im.nextBlk == DATA_START && im.nextInode == 1 && im.owner == map[]
    requires forall b :: SUPER_BLOCK <= b < BLK_NUM ==> im.img[b] == Zeros()
    modifies im, im.img
    ensures im.Valid() && im.nextInode == 2 && im.nextBlk == DATA_START + 1
    ensures SuperAt(im.img[..]) == Layout && Packed(im.img[..], map[], map[], 2)
  {
    hide DinodeAt, PosBlk, BitAt, SameFile, Separated, Sized, FirstBits, PutU32, DecSuper, Unused, Contents,
      Appended, Packed, StrCpy;
    im.Write(SUPER_BLOCK, 0, PutU32(BITMAP));
    im.Write(SUPER_BLOCK, 4, PutU32(ISTART));
    im.Write(SUPER_BLOCK, 8, PutU32(INUM));
    assert im.img[SUPER_BLOCK][..12] == PutU32(BITMAP) + PutU32(ISTART) + PutU32(INUM);
    im.Write(BITMAP, 0, PutU32(0xffff_ffff));
    im.Write(BITMAP, 4, PutU32(0xffff_ffff));
    FirstBitsAre(im.img[BITMAP]);
    FormattedOk(im.img[..]);
    var root := im.Ialloc(TYPE_DIR);
    ghost var disk := im.img[..];
    im.Write(SUPER_BLOCK, 12, PutU32(root));
    assert im.img[SUPER_BLOCK][..16] == im.img[SUPER_BLOCK][..12] + PutU32(root);
    SuperOfBytes(im.img[SUPER_BLOCK]);
    SuperWrite(disk, im.img[..], im.owner, im.nextBlk, im.nextInode);
    SameDinode(disk, im.img[..], ROOT);
    EmptyFile(im.img[..], ROOT);
    RootCosts();
    ghost var disk1 := im.img[..];
    var dirent := Dirent(root, StrCpy(field, Dot));
    im.Iappend(root, dirent);
    AppendedFacts(disk1, im.img[..], ROOT, dirent);
    ghost var disk2 := im.img[..];
    var dirent2 := Dirent(root, StrCpy(dirent[4..], DotDot));
    im.Iappend(root, dirent2);
    AppendedFacts(disk2, im.img[..], ROOT, dirent2);
    NewDirBytes(ROOT, ROOT, field, dirent, dirent2, Contents(im.img[..], ROOT));
    EmptyRoot(im.img[..], im.owner, im.nextBlk);
  }

  lemma FirstBitsAre(b: Block)
    requires b == Patch(Patch(Zeros(), 0, PutU32(0xffff_ffff)), 4, PutU32(0xffff_ffff))
    ensures b == FirstBits()
  {
  }

  lemma EmptyFile(disk: Disk, i: nat)
    requires i < INUM && DinodeAt(disk, i).size == 0
    ensures Contents(disk, i) == []
  {
    hide DinodeAt;
  }

  lemma RootCosts()
    ensures Cost(NumBlocks(0), NumBlocks(DIRENT)) == 1 && Cost(NumBlocks(DIRENT), NumBlocks(2 * DIRENT)) == 0
  {
  }

  lemma AppendedFacts(disk: Disk, disk2: Disk, i: nat, more: seq<byte>)
    requires Appended(disk, disk2, i, more)
    ensures i < INUM && Contents(disk2, i) == Contents(disk, i) + more
    ensures DinodeAt(disk2, i).size == DinodeAt(disk, i).size + |more| && DinodeAt(disk2, i).typ == DinodeAt(disk, i).typ
  {
    hide DinodeAt, SameFile, Contents;
  }

  // ---------------------------------------------------------------- add_file

  /** Blocks that another entry in a root of n entries takes, and those that a new file of len bytes takes. */
  function EntryCost(n: nat): nat {
    Cost(NumBlocks(DIRENT * n), NumBlocks(DIRENT * (n + 1)))
  }

  function FileCost(len: nat): nat {
    Cost(0, NumBlocks(len))
  }

  lemma CostSplit(a: nat, b: nat, c: nat)
    requires a <= b <= c
    ensures Cost(NumBlocks(a), NumBlocks(b)) + Cost(NumBlocks(b), NumBlocks(c)) == Cost(NumBlocks(a), NumBlocks(c))
  {
    assert NumBlocks(a) <= NumBlocks(b) <= NumBlocks(c);
  }

  /** The image is whole, and holds the given files. */
  ghost predicate HoldsFiles(im: Image, links: Links, files: map<Name, seq<byte>>)
    reads im, im.img
  {
    im.Valid() && Packed(im.img[..], links, files, im.nextInode)
  }

  /** There is room for one more entry, and for a file of len bytes. */
  ghost predicate HasRoom(im: Image, len: nat)
    reads im
  {
    && len <= MAX_SIZE && 2 <= im.nextInode < INUM
    && im.nextBlk + EntryCost(im.nextInode) + FileCost(len) <= BLK_NUM
  }

  ghost predicate IsNew(name: Name, files: map<Name, seq<byte>>) {
    FileName(name) && name !in files
  }

  /** The name is bound to inode t, an empty file. */
  ghost predicate NewFile(disk: Disk, name: Name, t: nat) {
    HasFile(disk, t, []) && WellDir(Contents(disk, ROOT)) && name in DirMap(Contents(disk, ROOT)) && DirMap(Contents(disk, ROOT))[name] == t
  }

  function Linked(links: Links, t: nat): Links {
    links[t := (ROOT, t)]
  }

  function WithFile(files: map<Name, seq<byte>>, name: Name, bytes: seq<byte>): map<Name, seq<byte>> {
    files[name := bytes]
  }

  ghost predicate HoldsNew(im: Image, links: Links, files: map<Name, seq<byte>>, name: Name, t: nat)
    reads im, im.img
  {
    im.img.Length == BLK_NUM && NewFile(im.img[..], name, t) && HoldsFiles(im, Linked(links, t), WithFile(files, name, []))
  }

  lemma RoomForEntry(im: Image, len: nat)
    requires HasRoom(im, len)
    ensures HasRoom(im, 0)
  {
    NoCost();
  }

  lemma NewFileFacts(disk: Disk, name: Name, t: nat)
    requires NewFile(disk, name, t) && Whole(disk)
    ensures t < INUM && DinodeAt(disk, t).typ == TYPE_FILE && DinodeAt(disk, t).size == 0
  {
    hide DinodeAt, DirMap, Contents;
    ContentsSize(disk, t);
  }

  /** The first half of add_file: an inode, and its entry in the root. */
  method PutEntry(im: Image, name: Name, field: seq<byte>, ghost links: Links, ghost files: map<Name, seq<byte>>)
    returns (t: nat)
    requires HoldsFiles(im, links, files) && HasRoom(im, 0) && IsNew(name, files) && |field| == DIRENT - 4
    modifies im`nextBlk, im`nextInode, im`owner, im.img
    ensures im.img.Length == BLK_NUM && im.img[SUPER_BLOCK] == old(im.img[SUPER_BLOCK]) && im.nextBlk == old(im.nextBlk) + EntryCost(t)
    ensures t == old(im.nextInode) && im.nextInode == t + 1
    ensures HoldsNew(im, links, files, name, t)
  {
    hide DinodeAt, PosBlk, BitAt, SameFile, Separated, Sized, PutU32, DecSuper, Contents, Appended, Packed, StrCpy,
      InodeTaken, DirMap, WellDir, NumBlocks, Cost, Bound, NewFile, Unused;
    ghost var disk := im.img[..];
    RootSize(disk, links, files, im.nextInode);
    t := im.Ialloc(TYPE_FILE);
    ghost var disk1 := im.img[..];
    TakenFacts(disk, disk1, t, TYPE_FILE, ROOT);
    var dirent := Dirent(t, StrCpy(field, name));
    im.Iappend(ROOT, dirent);
    EntryAdded(disk, disk1, im.img[..], links, files, t, name, field);
    IsNewFile(disk, disk1, im.img[..], links, files, t, name, field);
  }

  lemma IsNewFile(disk: Disk, disk1: Disk, disk2: Disk, links: Links, files: map<Name, seq<byte>>, t: nat,
          name: Name, field: seq<byte>)
    requires EntryPut(disk, disk1, disk2, t, name, field) && Packed(disk, links, files, t) && FileName(name) && name !in files
    requires Bound(Contents(disk, ROOT), Contents(disk2, ROOT), name, t)
    ensures NewFile(disk2, name, t)
  {
    hide DinodeAt, PosBlk, Contents, DirMap, WellDir, Sized, SameFile, TreeOk, PutU32, Created, StrCpy, Appended,
      InodeTaken, HasFile;
    RootGains(disk, disk1, disk2, t, name, field);
  }

  /** The second half: read and append a block at a time. */
  method Fill(im: Image, t: nat, bytes: seq<byte>)
    requires im.Valid() && t < im.nextInode && |bytes| <= MAX_SIZE
    requires DinodeAt(im.img[..], t).typ != TYPE_NONE && DinodeAt(im.img[..], t).size == 0
    requires im.nextBlk + FileCost(|bytes|) <= BLK_NUM
    modifies im`nextBlk, im`owner, im.img
    ensures im.Valid() && Appended(old(im.img[..]), im.img[..], t, bytes)
    ensures im.img[SUPER_BLOCK] == old(im.img[SUPER_BLOCK]) && im.nextBlk == old(im.nextBlk) + FileCost(|bytes|)
  {
    hide DinodeAt, PosBlk, BitAt, SameFile, Separated, Sized, Contents, Appended, NumBlocks, Cost, Unused;
    ghost var disk := im.img[..];
    InodeRange(disk, im.owner, im.nextBlk, im.nextInode);
    NothingAppended(disk, t);
    NoCost();
    var pos := 0;
    while pos < |bytes|
      invariant im.Valid() && 0 <= pos <= |bytes| && im.nextInode == old(im.nextInode)
      invariant im.img[SUPER_BLOCK] == old(im.img[SUPER_BLOCK]) && Appended(disk, im.img[..], t, bytes[..pos])
      invariant im.nextBlk + Cost(NumBlocks(pos), NumBlocks(|bytes|)) == old(im.nextBlk) + FileCost(|bytes|)
    {
      ghost var here := im.img[..];
      AppendedFacts(disk, here, t, bytes[..pos]);
      var size := Min(BLK_SIZE, |bytes| - pos);
      CostSplit(pos, pos + size, |bytes|);
      im.Iappend(t, bytes[pos..pos + size]);
      AppendedTwice(disk, here, im.img[..], t, bytes, pos, pos + size);
      pos := pos + size;
    }
    assert bytes[..pos] == bytes;
    CostSteps(pos, |bytes|, |bytes|);
  }

  lemma NoCost()
    ensures NumBlocks(0) == 0
  {
  }

  /** add_file: the root gets a file of the given name and bytes; the files it has are as they were. */
  method AddFile(im: Image, name: Name, bytes: seq<byte>, field: seq<byte>, ghost links: Links,
          ghost files: map<Name, seq<byte>>)
    returns (ghost links': Links)
    requires HoldsFiles(im, links, files) && HasRoom(im, |bytes|) && IsNew(name, files) && |field| == DIRENT - 4
    modifies im`nextBlk, im`nextInode, im`owner, im.img
    ensures im.img.Length == BLK_NUM && im.img[SUPER_BLOCK] == old(im.img[SUPER_BLOCK])
    ensures im.nextBlk == old(im.nextBlk) + EntryCost(old(im.nextInode)) + FileCost(|bytes|)
    ensures im.nextInode == old(im.nextInode) + 1
    ensures HoldsFiles(im, links', WithFile(files, name, bytes))
  {
    hide DinodeAt, PosBlk, BitAt, SameFile, Separated, Sized, Contents, Appended, Packed, DirMap, WellDir, NumBlocks,
      Cost, Unused, NewFile, FileName;
    RoomForEntry(im, |bytes|);
    var t := PutEntry(im, name, field, links, files);
    links' := links[t := (ROOT, t)];
    ghost var disk := im.img[..];
    NewFileFacts(disk, name, t);
    Fill(im, t, bytes);
    NewFileFilled(disk, im.img[..], links', files[name := []], im.nextInode, name, t, bytes);
    assert [] + bytes == bytes && files[name := []][name := bytes] == files[name := bytes];
  }

  lemma NewFileFilled(disk: Disk, disk2: Disk, links: Links, files: map<Name, seq<byte>>, nextInode: nat, name: Name,
          t: nat, bytes: seq<byte>)
    requires Packed(disk, links, files, nextInode) && name in files && files[name] == [] && NewFile(disk, name, t)
    requires Whole(disk) && Whole(disk2) && Appended(disk, disk2, t, bytes)
    ensures Packed(disk2, links, files[name := [] + bytes], nextInode)
  {
    hide DinodeAt, PosBlk, SameFile, Sized, Contents, Appended, Packed, DirMap, WellDir;
    BytesAdded(disk, disk2, links, files, nextInode, name, t, bytes);
  }

  lemma TakenFacts(disk: Disk, disk1: Disk, t: nat, typ: u32, i: nat)
    requires InodeTaken(disk, disk1, t, typ) && i < INUM && i != t
    ensures DinodeAt(disk1, i) == DinodeAt(disk, i)
  {
    hide DinodeAt, PosBlk;
    SameDinode(disk, disk1, i);
  }
}
