/** Disk blocks as byte sequences, and the two ways the kernel reads them:
    as an array of 32-bit little-endian words and as an array of bits. */
module Bytes {

  type byte = x: int | 0 <= x < 256

  const BSIZE := 512
  const NWORDS := 128           // BSIZE / sizeof(uint)
  const BPB := 4096             // bits per block
  const UINT_MOD := 0x1_0000_0000

  type Block = b: seq<byte> | |b| == BSIZE witness seq(BSIZE, _ => 0)
  type Disk = seq<Block>
  type uint = x: int | 0 <= x < UINT_MOD

  function Min(a: int, b: int): int { if a < b then a else b }

  function Max(a: int, b: int): int { if a < b then b else a }

  function ZeroBlock(): Block { seq(BSIZE, _ => 0) }

  function Word(b: Block, i: nat): uint
    requires i < NWORDS
  {
    var b0: int, b1: int, b2: int, b3: int := b[4*i], b[4*i+1], b[4*i+2], b[4*i+3];
    b0 + 0x100 * b1 + 0x1_0000 * b2 + 0x100_0000 * b3
  }

  function PutWord(b: Block, i: nat, w: uint): Block
    requires i < NWORDS
  {
    b[4*i := w % 0x100][4*i+1 := w / 0x100 % 0x100][4*i+2 := w / 0x1_0000 % 0x100][4*i+3 := w / 0x100_0000]
  }

  lemma SplitWord(w: uint)
    ensures w == w % 0x100 + 0x100 * (w / 0x100 % 0x100) + 0x1_0000 * (w / 0x1_0000 % 0x100)
      + 0x100_0000 * (w / 0x100_0000)
  {
    assert w / 0x1_0000 == w / 0x100 / 0x100;
    assert w / 0x100_0000 == w / 0x1_0000 / 0x100;
  }

  /** Reading back a stored word; every other word is untouched. */
  lemma WordOfPut(b: Block, i: nat, w: uint, j: nat)
    requires i < NWORDS && j < NWORDS
    ensures Word(PutWord(b, i, w), j) == if i == j then w else Word(b, j)
  {
    SplitWord(w);
  }

  /** Bit k of x is set. */
  predicate Bit(x: nat, k: nat) {
    if k == 0 then x % 2 == 1 else Bit(x / 2, k - 1)
  }

  /** x with bit k set to v. */
  function PutBit(x: nat, k: nat, v: bool): nat {
    if k == 0 then x - x % 2 + (if v then 1 else 0) else 2 * PutBit(x / 2, k - 1, v) + x % 2
  }

  lemma {:induction false} BitOfPut(x: nat, k: nat, v: bool, j: nat)
    ensures Bit(PutBit(x, k, v), j) == if j == k then v else Bit(x, j)
  {
    if k > 0 && j > 0 {
      BitOfPut(x / 2, k - 1, v, j - 1);
      assert PutBit(x, k, v) / 2 == PutBit(x / 2, k - 1, v);
    }
  }

  function Pow2(n: nat): (p: nat)
    ensures p > 0
  {
    if n == 0 then 1 else 2 * Pow2(n - 1)
  }

  lemma {:induction false} PutBitFits(x: nat, k: nat, v: bool, width: nat)
    requires k < width && x < Pow2(width)
    ensures PutBit(x, k, v) < Pow2(width)
  {
    if k > 0 { PutBitFits(x / 2, k - 1, v, width - 1); }
  }

  lemma PutBitByte(x: byte, k: nat, v: bool)
    requires k < 8
    ensures PutBit(x, k, v) < 256
  {
    assert Pow2(8) == 256;
    PutBitFits(x, k, v, 8);
  }

  /** Bit i of a bitmap block, and the block with that bit changed. */
  predicate BlockBit(b: Block, i: nat)
    requires i < BPB
  {
    Bit(b[i / 8], i % 8)
  }

  function PutBlockBit(b: Block, i: nat, v: bool): Block
    requires i < BPB
  {
    PutBitByte(b[i / 8], i % 8, v);
    b[i / 8 := PutBit(b[i / 8], i % 8, v)]
  }

  lemma BlockBitOfPut(b: Block, i: nat, v: bool, j: nat)
    requires i < BPB && j < BPB
    ensures BlockBit(PutBlockBit(b, i, v), j) == if i == j then v else BlockBit(b, j)
  {
    BitOfPut(b[i / 8], i % 8, v, j % 8);
    assert i == 8 * (i / 8) + i % 8 && j == 8 * (j / 8) + j % 8;
  }
}
