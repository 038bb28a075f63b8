/** The disk, sector by sector, behind a direct-mapped write-through cache of blocks (kernel/src/disk.c). */
module BlockDevice {
  import opened Bytes

  const SECT_SIZE := 512
  const BLK_SIZE := 4096
  const BLK_NUM := 32768
  const BCACHE_NUM := 16

  type Sector = s: seq<byte> | |s| == SECT_SIZE witness seq(SECT_SIZE, _ => 0)

  type Block = s: seq<byte> | |s| == BLK_SIZE witness seq(BLK_SIZE, _ => 0)

  function Zeros(): Block {
    seq(BLK_SIZE, _ => 0)
  }

  function BlankDisk(): seq<Block> {
    seq<Block>(BLK_NUM, _ => Zeros())
  }

  type Disk = s: seq<Block> | |s| == BLK_NUM witness BlankDisk()

  datatype CacheSlot = CacheSlot(valid: bool, no: nat, buf: Block)

  function SectorOf(b: Block, k: nat): Sector
    requires k < 8
  {
    b[SECT_SIZE * k..SECT_SIZE * k + SECT_SIZE]
  }

  class Device {
    const sectors: array<Sector>
    const cache: array<CacheSlot>
    // What the disk holds, block by block.
    ghost var blocks: Disk

    ghost predicate Valid()
      reads this, sectors, cache
    {
      && sectors.Length == 8 * BLK_NUM
      && cache.Length == BCACHE_NUM
      && (forall b, k :: 0 <= b < BLK_NUM && 0 <= k < 8 ==> sectors[8 * b + k] == SectorOf(blocks[b], k))
      && Coherent()
    }

    // Every valid slot holds what the disk holds: the cache is write-through.
    ghost predicate Coherent()
      requires cache.Length == BCACHE_NUM
      reads this, cache
    {
      forall s :: 0 <= s < BCACHE_NUM && cache[s].valid ==>
        cache[s].no < BLK_NUM && cache[s].no % BCACHE_NUM == s && cache[s].buf == blocks[cache[s].no]
    }

    /** A device over the given sectors, with a cold cache. */
    constructor (sectors: array<Sector>, ghost image: Disk)
      requires sectors.Length == 8 * BLK_NUM
      requires forall b, k :: 0 <= b < BLK_NUM && 0 <= k < 8 ==> sectors[8 * b + k] == SectorOf(image[b], k)
      ensures Valid() && blocks == image && fresh(cache) && this.sectors == sectors
    {
      this.sectors := sectors;
      cache := new CacheSlot[BCACHE_NUM](_ => CacheSlot(false, 0, Zeros()));
      blocks := image;
    }

    method CopyFromDisk(diskOffset: nat) returns (buf: Block)
      requires Valid() && diskOffset % BLK_SIZE == 0 && diskOffset / BLK_SIZE < BLK_NUM
      ensures buf == blocks[diskOffset / BLK_SIZE]
    {
      ghost var no := diskOffset / BLK_SIZE;
      var data: seq<byte> := [];
      var sect := diskOffset / SECT_SIZE;
      while |data| < BLK_SIZE
        invariant |data| % SECT_SIZE == 0 && |data| <= BLK_SIZE
        invariant sect == 8 * no + |data| / SECT_SIZE
        invariant data == blocks[no][..|data|]
        decreases BLK_SIZE - |data|
      {
        assert sectors[8 * no + |data| / SECT_SIZE] == SectorOf(blocks[no], |data| / SECT_SIZE);
        data := data + sectors[sect];
        sect := sect + 1;
      }
      buf := data;
    }

    method CopyToDisk(buf: Block, diskOffset: nat)
      requires sectors.Length == 8 * BLK_NUM && cache.Length == BCACHE_NUM
      requires forall b, k :: 0 <= b < BLK_NUM && 0 <= k < 8 ==> sectors[8 * b + k] == SectorOf(blocks[b], k)
      requires diskOffset % BLK_SIZE == 0 && diskOffset / BLK_SIZE < BLK_NUM
      modifies this, sectors
      ensures blocks == old(blocks)[diskOffset / BLK_SIZE := buf]
      ensures forall b, k :: 0 <= b < BLK_NUM && 0 <= k < 8 ==> sectors[8 * b + k] == SectorOf(blocks[b], k)
    {
      ghost var no := diskOffset / BLK_SIZE;
      var cur := 0;
      var sect := diskOffset / SECT_SIZE;
      while cur < BLK_SIZE
        invariant cur % SECT_SIZE == 0 && 0 <= cur <= BLK_SIZE
        invariant sect == 8 * no + cur / SECT_SIZE
        invariant blocks == old(blocks)
        invariant forall k :: 0 <= k < cur / SECT_SIZE ==> sectors[8 * no + k] == SectorOf(buf, k)
        invariant forall b, k :: 0 <= b < BLK_NUM && 0 <= k < 8 && !(b == no && k < cur / SECT_SIZE) ==>
          sectors[8 * b + k] == SectorOf(blocks[b], k)
      {
        sectors[sect] := buf[cur..cur + SECT_SIZE];
        assert sectors[sect] == SectorOf(buf, cur / SECT_SIZE);
        cur := cur + SECT_SIZE;
        sect := sect + 1;
      }
      blocks := blocks[no := buf];
      forall b, k | 0 <= b < BLK_NUM && 0 <= k < 8
        ensures sectors[8 * b + k] == SectorOf(blocks[b], k)
      {
        if b != no {
          assert sectors[8 * b + k] == SectorOf(old(blocks)[b], k);
        }
      }
    }

    /** The cache slot of block `no`, loaded if the slot held another block. */
    method BgetCache(no: nat) returns (s: nat)
      requires Valid() && no < BLK_NUM
      modifies cache
      ensures Valid()
      ensures s == no % BCACHE_NUM && cache[s].valid && cache[s].no == no
    {
      s := no % BCACHE_NUM;
      if !cache[s].valid || cache[s].no != no {
        var buf := CopyFromDisk(no * BLK_SIZE);
        cache[s] := CacheSlot(true, no, buf);
      }
    }

    method Bread(size: nat, no: nat, off: nat) returns (dst: seq<byte>)
      requires Valid() && no < BLK_NUM && off + size <= BLK_SIZE
      modifies cache
      ensures Valid()
      ensures dst == blocks[no][off..off + size]
    {
      var s := BgetCache(no);
      dst := cache[s].buf[off..off + size];
    }

    method Bwrite(src: seq<byte>, no: nat, off: nat)
      requires Valid() && no < BLK_NUM && off + |src| <= BLK_SIZE
      modifies this, sectors, cache
      ensures Valid()
      ensures blocks == old(blocks)[no := Patch(old(blocks)[no], off, src)]
    {
      var s := BgetCache(no);
      cache[s] := cache[s].(buf := Patch(cache[s].buf, off, src));
      CopyToDisk(cache[s].buf, no * BLK_SIZE);
    }

    method Bzero(no: nat)
      requires Valid() && no < BLK_NUM
      modifies this, sectors, cache
      ensures Valid()
      ensures blocks == old(blocks)[no := Zeros()]
    {
      var s := BgetCache(no);
      cache[s] := cache[s].(buf := Zeros());
      CopyToDisk(cache[s].buf, no * BLK_SIZE);
    }
  }
}
