/** From mkfs to the kernel: the kernel mounts an image that mkfs built and reads its files back by name. */
module Mount {
  import opened Options
  import opened Bytes
  import opened BlockDevice
  import opened FsLayout
  import opened FileSystem
  import opened Directory
  import opened Tree
  import opened Path
  import opened PathOps
  import opened Walk
  import opened Open
  import opened Image
  import opened Mkfs

  /** A file given to mkfs: its base name, its bytes, and what the name field of the entry held before. */
  datatype Source = Source(name: Name, bytes: seq<byte>, field: seq<byte>)

  function Files(sources: seq<Source>): map<Name, seq<byte>> {
    if sources == [] then map[]
    else WithFile(Files(sources[..|sources| - 1]), sources[|sources| - 1].name, sources[|sources| - 1].bytes)
  }

  /** The blocks that the files take, those of the growing root included. */
  function Space(sources: seq<Source>): nat {
    if sources == [] then 0
    else Space(sources[..|sources| - 1]) + EntryCost(|sources| + 1) + FileCost(|sources[|sources| - 1].bytes|)
  }

  /** Distinct short names, files that are not too large, and room for all of them. */
  predicate CanPack(sources: seq<Source>) {
    && (forall k :: 0 <= k < |sources| ==>
          FileName(sources[k].name) && |sources[k].bytes| <= MAX_SIZE && |sources[k].field| == DIRENT - 4)
    && (forall k, l :: 0 <= k < l < |sources| ==> sources[k].name != sources[l].name)
    && |sources| + 2 <= INUM && DATA_START + 1 + Space(sources) <= BLK_NUM
  }

  /** The map has exactly the files given. */
  lemma {:induction false} FilesAre(sources: seq<Source>)
    requires forall k, l :: 0 <= k < l < |sources| ==> sources[k].name != sources[l].name
    ensures forall n :: n in Files(sources) <==> exists k :: 0 <= k < |sources| && sources[k].name == n
    ensures forall k :: 0 <= k < |sources| ==> sources[k].name in Files(sources) && Files(sources)[sources[k].name] == sources[k].bytes
  {
    if sources != [] {
      var front := sources[..|sources| - 1];
      FilesAre(front);
      forall n
        ensures n in Files(sources) <==> exists k :: 0 <= k < |sources| && sources[k].name == n
      {
        if k :| 0 <= k < |sources| && sources[k].name == n {
          assert k < |front| ==> front[k].name == n;
        }
        if k :| 0 <= k < |front| && front[k].name == n {
          assert sources[k].name == n;
        }
      }
      forall k | 0 <= k < |sources|
        ensures sources[k].name in Files(sources) && Files(sources)[sources[k].name] == sources[k].bytes
      {
        assert k < |front| ==> front[k] == sources[k];
      }
    }
  }

  lemma {:induction false} SpaceGrows(sources: seq<Source>, k: nat)
    requires k <= |sources|
    ensures Space(sources[..k]) <= Space(sources)
  {
    hide EntryCost, FileCost;
    if k == |sources| {
      assert sources[..k] == sources;
    } else {
      var front := sources[..|sources| - 1];
      SpaceGrows(front, k);
      assert front[..k] == sources[..k];
    }
  }

  /** What adding the next source needs. */
  lemma NextSource(sources: seq<Source>, k: nat)
    requires CanPack(sources) && k < |sources|
    ensures IsNew(sources[k].name, Files(sources[..k]))
    ensures Files(sources[..k + 1]) == WithFile(Files(sources[..k]), sources[k].name, sources[k].bytes)
    ensures Space(sources[..k + 1]) == Space(sources[..k]) + EntryCost(k + 2) + FileCost(|sources[k].bytes|)
    ensures DATA_START + 1 + Space(sources[..k + 1]) <= BLK_NUM
  {
    hide EntryCost, FileCost, FileName;
    assert sources[..k + 1][..k] == sources[..k];
    FilesAre(sources[..k]);
    SpaceGrows(sources, k + 1);
  }

  /** main of mkfs: an image that holds exactly the files given. */
  method MakeImage(boot: seq<Block>, sources: seq<Source>, field: seq<byte>) returns (im: Image, ghost links: Links)
    requires |boot| == SUPER_BLOCK && CanPack(sources) && |field| == DIRENT - 4
    ensures fresh(im) && fresh(im.img) && im.img.Length == BLK_NUM && SuperAt(im.img[..]) == Layout
    ensures im.nextBlk == DATA_START + 1 + Space(sources)
    ensures HoldsFiles(im, links, Files(sources))
  {
    hide HoldsFiles, CanPack, EntryCost, FileCost, DecSuper, Packed, FileName, Image.Valid;
    im := new Image(boot);
    InitDisk(im, field);
    links := map[];
    FirstHolding(im);
    ghost var super := im.img[SUPER_BLOCK];
    assert sources[..0] == [];
    var k := 0;
    while k < |sources|
      invariant 0 <= k <= |sources| && fresh(im) && fresh(im.img) && im.img.Length == BLK_NUM
      invariant HoldsFiles(im, links, Files(sources[..k])) && im.nextInode == k + 2
      invariant im.nextBlk == DATA_START + 1 + Space(sources[..k]) && im.img[SUPER_BLOCK] == super
    {
      NextSource(sources, k);
      SourceOk(sources, k);
      links := AddFile(im, sources[k].name, sources[k].bytes, sources[k].field, links, Files(sources[..k]));
      k := k + 1;
    }
    assert sources[..k] == sources;
  }

  lemma FirstHolding(im: Image)
    requires im.Valid() && im.nextInode == 2 && Packed(im.img[..], map[], map[], 2)
    ensures HoldsFiles(im, map[], map[])
  {
    hide Image.Valid, Packed;
  }

  lemma SourceOk(sources: seq<Source>, k: nat)
    requires CanPack(sources) && k < |sources|
    ensures |sources[k].bytes| <= MAX_SIZE && |sources[k].field| == DIRENT - 4 && k + 2 < INUM
  {
  }

  // ---------------------------------------------------------------- the kernel's side

  function AtRoot(name: Name): seq<byte> {
    [SLASH] + name
  }

  /** "/" followed by a file name is a path of one component. */
  lemma RootPath(name: Name)
    requires FileName(name)
    ensures IsPath(AtRoot(name)) && Components(AtRoot(name)) == [name]
  {
    var path := AtRoot(name);
    assert forall x :: 0 <= x < |name| ==> name[x] in name;
    assert path[1..] == name;
    ElemAndRest(path, 1, |path|);
    assert path[|path|..] == [];
    assert path[1..|path|] == name;
    assert Cut(name) == name;
  }

  /** What Packed says about one name. */
  lemma PackedName(disk: Disk, links: Links, files: map<Name, seq<byte>>, nextInode: nat, name: Name)
    requires Packed(disk, links, files, nextInode) && name in files
    ensures FileName(name) && DinodeAt(disk, ROOT).typ == TYPE_DIR && WellDir(Contents(disk, ROOT))
    ensures name in DirMap(Contents(disk, ROOT)) && HasFile(disk, DirMap(Contents(disk, ROOT))[name], files[name])
  {
    hide DinodeAt, Contents, DirMap, WellDir, LinkOk, DirOk, HasFile, FileName;
  }

  /** From the root, the path leads to a plain file of these bytes. */
  ghost predicate LeadsTo(disk: Disk, path: seq<byte>, bytes: seq<byte>) {
    var t := Resolve(disk, ROOT, Components(path));
    t.Some? && HasFile(disk, t.value, bytes)
  }

  /** In an image that mkfs filled, "/name" leads to a file with the bytes given for that name. */
  lemma FoundByName(disk: Disk, links: Links, files: map<Name, seq<byte>>, nextInode: nat, name: Name)
    requires Packed(disk, links, files, nextInode) && name in files
    ensures LeadsTo(disk, AtRoot(name), files[name])
  {
    hide DinodeAt, Contents, DirMap, WellDir, HasFile, Components, FileName, Packed, Resolve;
    PackedName(disk, links, files, nextInode, name);
    RootPath(name);
    ResolveOne(disk, name);
  }

  lemma ResolveOne(disk: Disk, name: Name)
    requires DinodeAt(disk, ROOT).typ == TYPE_DIR && WellDir(Contents(disk, ROOT)) && name in DirMap(Contents(disk, ROOT))
    ensures Resolve(disk, ROOT, [name]) == Some(DirMap(Contents(disk, ROOT))[name] as nat)
  {
    hide DinodeAt, Contents, DirMap, WellDir;
    assert [name][1..] == [];
    assert Resolve(disk, DirMap(Contents(disk, ROOT))[name], []) == Some(DirMap(Contents(disk, ROOT))[name] as nat);
  }

  /** The sectors of a disk that holds the image. */
  ghost predicate OnDisk(sectors: array<Sector>, image: Disk)
    reads sectors
  {
    && sectors.Length == 8 * BLK_NUM
    && forall b, k :: 0 <= b < BLK_NUM && 0 <= k < 8 ==> sectors[8 * b + k] == SectorOf(image[b], k)
  }

  /** init_fs on the finished image: the kernel's invariant holds, and nothing is open. */
  method MountImage(im: Image, sectors: array<Sector>, ghost links: Links, ghost files: map<Name,
          seq<byte>>) returns (fs: Fs)
    requires im.img.Length == BLK_NUM && SuperAt(im.img[..]) == Layout && OnDisk(sectors, im.img[..])
    requires HoldsFiles(im, links, files)
    ensures fresh(fs) && fresh(fs.inodes) && fresh(fs.dev) && fresh(fs.dev.cache) && fs.dev.sectors == sectors
    ensures FsOk(fs, links) && fs.dev.blocks == im.img[..]
    ensures forall s :: 0 <= s < INODE_NUM ==> fs.table[s].ref == 0
  {
    hide DinodeAt, Separated, Sized, Device.Valid, Fs.Valid, Unused, TreeOk, DecSuper, DirMap, WellDir, HasFile;
    var dev := new Device(sectors, im.img[..]);
    fs := new Fs(dev, im.owner);
    assert Dead(fs.table) == {};
  }

  /** Opening a path that leads to a plain file. */
  lemma OpenedFile(a: FsState, b: FsState, path: seq<byte>, cwd: nat, s: Option<nat>, bytes: seq<byte>)
    requires OpenedPath(a, b, path, cwd, TYPE_NONE, s) && path != [] && path[0] == SLASH && Components(path) != []
    requires LeadsTo(a.disk, path, bytes)
    ensures SameDisk(a, b) && s.Some? && s.value < |b.table| == |a.table| && b.table[s.value].ref > 0
    ensures Contents(b.disk, b.table[s.value].no) == bytes && b.table[s.value].no < INUM
  {
    hide DinodeAt, Contents, Resolve, Components;
  }

  ghost predicate Stored(fs: Fs, links: Links, files: map<Name, seq<byte>>)
    reads fs, fs.inodes, fs.dev, fs.dev.sectors, fs.dev.cache
  {
    FsOk(fs, links) && exists n :: Packed(fs.dev.blocks, links, files, n)
  }

  /** iopen("/name"), then iread from the start: the bytes that mkfs was given for this name. */
  method ReadByName(fs: Fs, name: Name, len: u32, ghost links: Links, ghost files: map<Name,
          seq<byte>>) returns (buf: seq<byte>)
    requires Stored(fs, links, files) && name in files && |files[name]| <= len && Room(fs.table, 2)
    modifies fs`owner, fs`table, fs.inodes, fs.dev, fs.dev.sectors, fs.dev.cache
    ensures Stored(fs, links, files) && fs.dev.blocks == old(fs.dev.blocks)
    ensures buf == files[name]
  {
    hide DinodeAt, Separated, Sized, Device.Valid, Fs.Valid, TreeOk, Contents, Resolve, Components, Packed, TableOk,
      Dead, RefsPlus, SameRefs, Room, IsPath, DirMap, FileName, OpenedNew, HasFile, WellDir, LeadsTo, OpenedPath;
    ghost var n :| Packed(fs.dev.blocks, links, files, n);
    FoundByName(fs.dev.blocks, links, files, n, name);
    PackedName(fs.dev.blocks, links, files, n, name);
    RootPath(name);
    ghost var a := State(fs, links);
    ghost var cwd := CwdNo(fs.table, 0);
    var path := AtRoot(name);
    var s;
    ghost var links2;
    s, links2 := Iopen(fs, path, TYPE_NONE, 0, links);
    OpenedFile(a, State(fs, links2), path, cwd, s, files[name]);
    var r;
    r, buf := fs.Iread(s.value, 0, len);
  }

  function SectorAt(image: Disk, x: nat): Sector {
    if x < 8 * BLK_NUM then SectorOf(image[x / 8], x % 8) else seq(SECT_SIZE, _ => 0)
  }

  /** The image file copied to a disk, sector by sector. */
  method CopyImage(im: Image) returns (sectors: array<Sector>)
    requires im.img.Length == BLK_NUM
    ensures fresh(sectors) && OnDisk(sectors, im.img[..])
  {
    var image := im.img[..];
    sectors := new Sector[8 * BLK_NUM](x => SectorAt(image, x));
    forall b, k | 0 <= b < BLK_NUM && 0 <= k < 8
      ensures sectors[8 * b + k] == SectorOf(image[b], k)
    {
      assert (8 * b + k) / 8 == b && (8 * b + k) % 8 == k;
    }
  }

  /** Any files that mkfs can pack, and any of them: mkfs, copy to disk, mount, open by name, read. */
  method RoundTrip(boot: seq<Block>, sources: seq<Source>, field: seq<byte>, k: nat, len: u32) returns (buf: seq<byte>)
    requires |boot| == SUPER_BLOCK && CanPack(sources) && |field| == DIRENT - 4
    requires k < |sources| && |sources[k].bytes| <= len
    ensures buf == sources[k].bytes
  {
    hide HoldsFiles, EntryCost, FileCost, DecSuper, SuperAt, FsOk, OnDisk, FileName, Packed;
    var im;
    ghost var links;
    im, links := MakeImage(boot, sources, field);
    var sectors := CopyImage(im);
    var fs := MountImage(im, sectors, links, Files(sources));
    IsStored(im, fs, links, Files(sources));
    FilesAre(sources);
    assert fs.table[0].ref == 0 && fs.table[1].ref == 0;
    buf := ReadByName(fs, sources[k].name, len, links, Files(sources));
  }

  lemma IsStored(im: Image, fs: Fs, links: Links, files: map<Name, seq<byte>>)
    requires HoldsFiles(im, links, files) && FsOk(fs, links) && im.img.Length == BLK_NUM && fs.dev.blocks == im.img[..]
    ensures Stored(fs, links, files)
  {
    hide Image.Valid, FsOk, Packed;
  }
}
