/** The bitmap block: words for the allocator, single bytes for the releaser, one set of bits. */
module Bitmap {
  import opened Bytes
  import opened BlockDevice
  import opened FsLayout

  function WordAt(disk: Disk, i: nat): u32
    requires i < BLK_NUM / 32
  {
    GetU32(disk[BITMAP], i * 4)
  }

  lemma GetSlice(b: seq<byte>, off: nat)
    requires off + 4 <= |b|
    ensures GetU32(b[off..off + 4], 0) == GetU32(b, off)
  {
  }

  /** Bit m of word i is the bit of block 32 * i + m. */
  lemma BitmapWordBit(disk: Disk, i: nat, m: nat)
    requires i < BLK_NUM / 32 && m < 32
    ensures BitAt(disk, 32 * i + m) <==> Bit(WordAt(disk, i), m)
  {
    hide Bit;
    WordBit(disk[BITMAP], i * 4, m);
    assert (32 * i + m) / 8 == i * 4 + m / 8 && (32 * i + m) % 8 == m % 8;
  }

  lemma BitmapWord(disk: Disk, i: nat)
    requires i < BLK_NUM / 32
    ensures forall b :: 32 * i <= b < 32 * i + 32 ==> (BitAt(disk, b) <==> Bit(WordAt(disk, i), b - 32 * i))
  {
    hide Bit, BitAt, WordAt;
    forall b | 32 * i <= b < 32 * i + 32
      ensures BitAt(disk, b) <==> Bit(WordAt(disk, i), b - 32 * i)
    {
      BitmapWordBit(disk, i, b - 32 * i);
    }
  }

  lemma NotAllOnes(word: u32)
    requires word != 0xffff_ffff
    ensures exists m :: 0 <= m < 32 && !Bit(word, m)
  {
    Powers();
    var m := ClearBitOf(word, 32);
  }

  lemma AllOnesWord(disk: Disk, i: nat)
    requires i < BLK_NUM / 32 && WordAt(disk, i) == 0xffff_ffff
    ensures forall b :: 32 * i <= b < 32 * i + 32 ==> BitAt(disk, b)
  {
    hide Bit, BitAt, WordAt;
    Powers();
    forall b | 32 * i <= b < 32 * i + 32
      ensures BitAt(disk, b)
    {
      BitmapWordBit(disk, i, b - 32 * i);
      OnesHaveBit(32, b - 32 * i);
    }
  }

  /** The word that balloc writes back sets the bit of block 32 * i + j and no other. */
  lemma SetBitInWord(disk: Disk, disk0: Disk, i: nat, j: nat)
    requires i < BLK_NUM / 32 && j < 32
    requires disk0[BITMAP] == disk[BITMAP]
    ensures SetBit(WordAt(disk, i), j) < 0x1_0000_0000
    ensures forall b :: 0 <= b < BLK_NUM ==>
      (BitAt(WriteBlk(disk0, BITMAP, i * 4, PutU32(SetBit(WordAt(disk, i), j))), b) <==> b == 32 * i + j || BitAt(disk, b))
  {
    hide Bit, BitAt, SetBit, PutU32, GetU32;
    Powers();
    SetBitBound(WordAt(disk, i), j, 32);
    var word := SetBit(WordAt(disk, i), j);
    var disk1 := WriteBlk(disk0, BITMAP, i * 4, PutU32(word));
    assert WordAt(disk1, i) == word by { GetPutU32(disk[BITMAP], i * 4, word); }
    forall b | 0 <= b < BLK_NUM
      ensures BitAt(disk1, b) <==> b == 32 * i + j || BitAt(disk, b)
    {
      if 32 * i <= b < 32 * i + 32 {
        BitmapWord(disk, i);
        BitmapWord(disk1, i);
        BitOfSetBit(WordAt(disk, i), j, b - 32 * i);
      } else {
        OtherByte(disk, disk1, b);
      }
    }
  }

  lemma OtherByte(disk: Disk, disk1: Disk, b: nat)
    requires b < BLK_NUM && disk1[BITMAP][b / 8] == disk[BITMAP][b / 8]
    ensures BitAt(disk1, b) <==> BitAt(disk, b)
  {
    hide Bit;
  }

  /** The byte that bfree writes back clears the bit of its block and no other. */
  lemma ClearBitInByte(disk: Disk, blkno: nat)
    requires blkno < BLK_NUM
    ensures ClearBit(disk[BITMAP][blkno / 8], blkno % 8) < 256
    ensures forall b :: 0 <= b < BLK_NUM ==>
      (b != blkno && BitAt(disk, b) <==>
        BitAt(WriteBlk(disk, BITMAP, blkno / 8, [ClearBit(disk[BITMAP][blkno / 8], blkno % 8)]), b))
  {
    hide Bit, ClearBit;
    var prev := disk[BITMAP][blkno / 8];
    ClearBitBound(prev, blkno % 8);
    var disk1 := WriteBlk(disk, BITMAP, blkno / 8, [ClearBit(prev, blkno % 8)]);
    forall b | 0 <= b < BLK_NUM
      ensures BitAt(disk1, b) <==> b != blkno && BitAt(disk, b)
    {
      if b / 8 == blkno / 8 {
        BitOfClearBit(prev, blkno % 8, b % 8);
      }
    }
  }
}
