/** Bytes, little-endian 32-bit words and single bits, as the x86 code lays them out in memory and on disk. */
module Bytes {

  type byte = x: int | 0 <= x < 256

  type u32 = x: int | 0 <= x < 0x1_0000_0000

  /** The bytes of `b` with `src` written over them from `off` on (memcpy into a buffer). */
  function Patch(b: seq<byte>, off: nat, src: seq<byte>): (r: seq<byte>)
    requires off + |src| <= |b|
    ensures |r| == |b|
    ensures forall x :: 0 <= x < |b| ==> r[x] == if off <= x < off + |src| then src[x - off] else b[x]
  {
    b[..off] + src + b[off + |src|..]
  }

  // ---------------------------------------------------------------- words

  function GetU32(b: seq<byte>, off: nat): u32
    requires off + 4 <= |b|
  {
    var b0: int, b1: int, b2: int, b3: int := b[off], b[off + 1], b[off + 2], b[off + 3];
    b0 + 0x100 * b1 + 0x1_0000 * b2 + 0x100_0000 * b3
  }

  function ByteOf(v: u32, j: nat): byte
    requires j < 4
  {
    if j == 0 then v % 0x100
    else if j == 1 then v / 0x100 % 0x100
    else if j == 2 then v / 0x1_0000 % 0x100
    else v / 0x100_0000
  }

  function PutU32(v: u32): (r: seq<byte>)
    ensures |r| == 4
  {
    [ByteOf(v, 0), ByteOf(v, 1), ByteOf(v, 2), ByteOf(v, 3)]
  }

  /** The memory image of an array of words. */
  function EncWords(ws: seq<u32>): (r: seq<byte>)
    ensures |r| == 4 * |ws|
  {
    seq(4 * |ws|, (x: nat) requires x < 4 * |ws| => ByteOf(ws[x / 4], x % 4))
  }

  function DecWords(b: seq<byte>, off: nat, n: nat): (ws: seq<u32>)
    requires off + 4 * n <= |b|
    ensures |ws| == n
    ensures forall k :: 0 <= k < n ==> ws[k] == GetU32(b, off + 4 * k)
  {
    seq(n, (k: nat) requires k < n => GetU32(b, off + 4 * k))
  }

  lemma WordOfBytes(v: u32)
    ensures GetU32(PutU32(v), 0) == v
  {
    var a := v / 0x100;
    var b := a / 0x100;
    assert v / 0x1_0000 == b && v / 0x100_0000 == b / 0x100;
    assert v == v % 0x100 + 0x100 * a && a == a % 0x100 + 0x100 * b && b == b % 0x100 + 0x100 * (b / 0x100);
  }

  /** Writing a word and reading it back, wherever it is written. */
  lemma GetPutU32(b: seq<byte>, off: nat, v: u32)
    requires off + 4 <= |b|
    ensures GetU32(Patch(b, off, PutU32(v)), off) == v
  {
    WordOfBytes(v);
  }

  /** A word that the patch does not touch is read as before. */
  lemma GetPatchOther(b: seq<byte>, off: nat, src: seq<byte>, at: nat)
    requires off + |src| <= |b| && at + 4 <= |b|
    requires at + 4 <= off || off + |src| <= at
    ensures GetU32(Patch(b, off, src), at) == GetU32(b, at)
  {
  }

  /** A word inside the patch is read from the patch. */
  lemma GetPatchIn(b: seq<byte>, off: nat, src: seq<byte>, at: nat)
    requires off + |src| <= |b|
    requires off <= at && at + 4 <= off + |src|
    ensures GetU32(Patch(b, off, src), at) == GetU32(src, at - off)
  {
  }

  lemma GetEnc(ws: seq<u32>, k: nat)
    requires k < |ws|
    ensures GetU32(EncWords(ws), 4 * k) == ws[k]
  {
    var e := EncWords(ws);
    assert e[4 * k] == ByteOf(ws[k], 0);
    assert e[4 * k + 1] == ByteOf(ws[k], 1);
    assert e[4 * k + 2] == ByteOf(ws[k], 2);
    assert e[4 * k + 3] == ByteOf(ws[k], 3);
    WordOfBytes(ws[k]);
  }

  /** Decoding, at the place of the patch, the image of an array of words gives the words back. */
  lemma DecPatchEnc(b: seq<byte>, off: nat, ws: seq<u32>)
    requires off + 4 * |ws| <= |b|
    ensures DecWords(Patch(b, off, EncWords(ws)), off, |ws|) == ws
  {
    hide GetU32, EncWords;
    forall k | 0 <= k < |ws|
      ensures GetU32(Patch(b, off, EncWords(ws)), off + 4 * k) == ws[k]
    {
      GetPatchIn(b, off, EncWords(ws), off + 4 * k);
      GetEnc(ws, k);
    }
  }

  // ---------------------------------------------------------------- bits

  function Pow2(n: nat): (r: nat)
    ensures r > 0
  {
    if n == 0 then 1 else 2 * Pow2(n - 1)
  }

  /** C's `x & (1 << j)`, as a truth value. */
  predicate Bit(x: nat, j: nat)
  {
    if j == 0 then x % 2 == 1 else Bit(x / 2, j - 1)
  }

  /** C's `x | (1 << j)`. */
  function SetBit(x: nat, j: nat): nat
  {
    if j == 0 then x / 2 * 2 + 1 else x % 2 + 2 * SetBit(x / 2, j - 1)
  }

  /** C's `x & ~(1 << j)`. */
  function ClearBit(x: nat, j: nat): nat
  {
    if j == 0 then x / 2 * 2 else x % 2 + 2 * ClearBit(x / 2, j - 1)
  }

  lemma {:induction false} BitOfSetBit(x: nat, j: nat, i: nat)
    ensures Bit(SetBit(x, j), i) <==> i == j || Bit(x, i)
  {
    if j > 0 && i > 0 {
      BitOfSetBit(x / 2, j - 1, i - 1);
    }
  }

  lemma {:induction false} BitOfClearBit(x: nat, j: nat, i: nat)
    ensures Bit(ClearBit(x, j), i) <==> i != j && Bit(x, i)
  {
    if j > 0 && i > 0 {
      BitOfClearBit(x / 2, j - 1, i - 1);
    }
  }

  lemma {:induction false} SetBitBound(x: nat, j: nat, n: nat)
    requires x < Pow2(n) && j < n
    ensures SetBit(x, j) < Pow2(n)
  {
    if j > 0 {
      SetBitBound(x / 2, j - 1, n - 1);
    }
  }

  lemma {:induction false} ClearBitBound(x: nat, j: nat)
    ensures ClearBit(x, j) <= x
  {
    if j > 0 {
      ClearBitBound(x / 2, j - 1);
    }
  }

  /** Bits of a low part and a high part glued together at bit `n`. */
  lemma {:induction false} BitOfGlue(lo: nat, hi: nat, n: nat, j: nat)
    requires lo < Pow2(n)
    ensures Bit(lo + Pow2(n) * hi, j) <==> if j < n then Bit(lo, j) else Bit(hi, j - n)
  {
    if n > 0 {
      var x := lo + Pow2(n) * hi;
      assert Pow2(n) * hi == 2 * (Pow2(n - 1) * hi);
      assert x / 2 == lo / 2 + Pow2(n - 1) * hi && x % 2 == lo % 2;
      if j > 0 {
        BitOfGlue(lo / 2, hi, n - 1, j - 1);
      }
    }
  }

  /** Every bit of an all-ones number is set... */
  lemma {:induction false} OnesHaveBit(n: nat, j: nat)
    requires j < n
    ensures Bit(Pow2(n) - 1, j)
  {
    if j > 0 {
      assert (Pow2(n) - 1) / 2 == Pow2(n - 1) - 1;
      OnesHaveBit(n - 1, j - 1);
    }
  }

  /** ...and any other number of n bits has a clear one. */
  lemma {:induction false} ClearBitOf(x: nat, n: nat) returns (j: nat)
    requires x < Pow2(n) - 1
    ensures j < n && !Bit(x, j)
  {
    if x % 2 == 0 {
      j := 0;
    } else {
      j := ClearBitOf(x / 2, n - 1);
      j := j + 1;
    }
  }

  lemma Powers()
    ensures Pow2(8) == 0x100 && Pow2(16) == 0x1_0000 && Pow2(24) == 0x100_0000 && Pow2(32) == 0x1_0000_0000
  {
    assert Pow2(4) == 16;
    assert Pow2(12) == 16 * Pow2(8);
    assert Pow2(20) == 16 * Pow2(16);
    assert Pow2(28) == 16 * Pow2(24);
  }

  /** Little-endian agreement: bit j of a 32-bit word is bit j % 8 of its byte j / 8. */
  lemma WordBit(b: seq<byte>, off: nat, j: nat)
    requires off + 4 <= |b| && j < 32
    ensures Bit(GetU32(b, off), j) <==> Bit(b[off + j / 8], j % 8)
  {
    Powers();
    var b0: int, b1: int, b2: int, b3: int := b[off], b[off + 1], b[off + 2], b[off + 3];
    var h2 := b2 + 0x100 * b3;
    var h1 := b1 + 0x100 * h2;
    assert GetU32(b, off) == b0 + 0x100 * h1;
    BitOfGlue(b0, h1, 8, j);
    if j >= 8 {
      BitOfGlue(b1, h2, 8, j - 8);
      if j >= 16 {
        BitOfGlue(b2, b3, 8, j - 16);
      }
    }
  }
}
