/** Block ownership: the free bitmap, the block pointers of every inode, and the indirect blocks
    they go through, as one value. Blocks are what bread returns. */
module Inodes {
  import opened Bytes
  import Sets

  const NDIRECT := 12
  const NINDIRECT := 128
  const MAXFILE := 140                  // NDIRECT + NINDIRECT
  const INDIRECT := 12                  // the pointer slot of the indirect block
  const NSLOT := 141

  /** Bitmap at bmapstart; blocks below datastart are never allocated. */
  datatype Super = Super(size: nat, bmapstart: nat, datastart: nat)

  datatype Inode = Inode(size: nat, addrs: seq<uint>)

  /** Which inode and which of its pointer slots a block belongs to. */
  datatype Place = Place(inum: nat, slot: nat)

  datatype Image = Image(blocks: Disk, inodes: seq<Inode>)

  /** Slots 0..11 are the direct pointers, 12 the indirect block, 13.. the words of the indirect block. */
  function SlotOf(bn: nat): nat { if bn < NDIRECT then bn else bn + 1 }

  function Pointer(blocks: Disk, ip: Inode, s: nat): uint
    requires |ip.addrs| == NDIRECT + 1 && s < NSLOT
  {
    if s <= INDIRECT then ip.addrs[s]
    else if ip.addrs[INDIRECT] == 0 || ip.addrs[INDIRECT] >= |blocks| then 0
    else Word(blocks[ip.addrs[INDIRECT]], s - INDIRECT - 1)
  }

  /** Pointer slot p of the image. */
  function At(img: Image, p: Place): uint
    requires Shape(img) && In(img, p)
  {
    Pointer(img.blocks, img.inodes[p.inum], p.slot)
  }

  predicate In(img: Image, p: Place) { p.inum < |img.inodes| && p.slot < NSLOT }

  ghost predicate Shape(img: Image) {
    forall i :: 0 <= i < |img.inodes| ==> |img.inodes[i].addrs| == NDIRECT + 1
  }

  ghost predicate Layout(sb: Super, blocks: Disk) {
    && sb.size <= |blocks| && sb.size < UINT_MOD
    && 0 < sb.bmapstart && sb.bmapstart + (sb.size + BPB - 1) / BPB <= sb.datastart <= sb.size
  }

  function BitmapBlock(sb: Super, b: nat): nat { sb.bmapstart + b / BPB }

  lemma BitmapLow(sb: Super, blocks: Disk, b: nat)
    requires Layout(sb, blocks) && b < sb.size
    ensures BitmapBlock(sb, b) < sb.datastart
  {
  }

  /** The bitmap bit of block b. */
  predicate Used(sb: Super, blocks: Disk, b: nat)
    requires BitmapBlock(sb, b) < |blocks|
  {
    BlockBit(blocks[BitmapBlock(sb, b)], b % BPB)
  }

  /** Consistency. owner names the one slot of each owned block; extra holds blocks that are
      allocated but in no slot, while an operation is under way. */
  ghost predicate Owned(sb: Super, img: Image, owner: map<nat, Place>, extra: set<nat>) {
    && Layout(sb, img.blocks) && Shape(img)
    && (forall b :: b in owner ==>
        sb.datastart <= b < sb.size && b !in extra && In(img, owner[b]) && At(img, owner[b]) == b)
    && (forall b :: b in extra ==> sb.datastart <= b < sb.size)
    && (forall p :: In(img, p) && At(img, p) != 0 ==> At(img, p) in owner && owner[At(img, p)] == p)
    && (forall b :: 0 <= b < sb.size ==>
          BitmapBlock(sb, b) < |img.blocks| &&
            (Used(sb, img.blocks, b) <==> b < sb.datastart || b in owner || b in extra))
  }

  /** The blocks whose bit is clear. */
  function FreeBlocks(sb: Super, blocks: Disk): set<nat> {
    set b: nat | b < sb.size && BitmapBlock(sb, b) < |blocks| && !Used(sb, blocks, b)
  }

  lemma FreeIs(sb: Super, img: Image, owner: map<nat, Place>)
    requires Owned(sb, img, owner, {})
    ensures sb.datastart <= sb.size && forall b :: b in owner ==> sb.datastart <= b < sb.size
    ensures forall b: nat :: b in FreeBlocks(sb, img.blocks) <==> sb.datastart <= b < sb.size && b !in owner
  {
    hide BlockBit, At;
  }

  lemma Parts(lo: nat, hi: nat, a: set<nat>, b: set<nat>)
    requires lo <= hi && (forall x :: x in a ==> lo <= x < hi) && forall x: nat :: x in b <==> lo <= x < hi && x !in a
    ensures |a| + |b| == hi - lo
  {
    hide Sets.Indices;
    var low, ab := Sets.Indices(lo), a + b;
    assert Sets.Indices(hi) == low + ab && low !! ab;
    assert |ab| == |a| + |b|;
    assert |low + ab| == |low| + |ab|;
  }

  /** Every data block is free or owned, never both. */
  lemma Room(sb: Super, img: Image, owner: map<nat, Place>)
    requires Owned(sb, img, owner, {})
    ensures |owner| + |FreeBlocks(sb, img.blocks)| == sb.size - sb.datastart
  {
    FreeIs(sb, img, owner);
    hide Owned, FreeBlocks, Sets.Indices;
    Parts(sb.datastart, sb.size, owner.Keys, FreeBlocks(sb, img.blocks));
    assert |owner.Keys| == |owner|;
  }

  /** b is some inode's indirect block. */
  ghost predicate IsIndirect(img: Image, b: nat)
    requires Shape(img)
  {
    exists i :: 0 <= i < |img.inodes| && img.inodes[i].addrs[INDIRECT] == b
  }

  /** Changing blocks that are nobody's indirect block changes no pointer. */
  lemma PointersKept(img: Image, blocks: Disk, p: Place)
    requires Shape(img) && In(img, p) && |blocks| == |img.blocks|
    requires forall b :: 0 < b < |blocks| && IsIndirect(img, b) ==> blocks[b] == img.blocks[b]
    ensures At(img.(blocks := blocks), p) == At(img, p)
  {
    var a := img.inodes[p.inum].addrs[INDIRECT];
    assert IsIndirect(img, a);
  }

  lemma IndirectOwned(sb: Super, img: Image, owner: map<nat, Place>, extra: set<nat>, b: nat)
    requires Owned(sb, img, owner, extra) && b != 0 && IsIndirect(img, b)
    ensures b in owner && owner[b].slot == INDIRECT
  {
    var i :| 0 <= i < |img.inodes| && img.inodes[i].addrs[INDIRECT] == b;
    assert At(img, Place(i, INDIRECT)) == b;
  }

  // ---- allocation and freeing of a block in no slot ----

  /** balloc's effect: the bit set, the block zeroed. */
  function Allocated(sb: Super, blocks: Disk, b: nat): Disk
    requires BitmapBlock(sb, b) < |blocks| && b < |blocks|
  {
    var m := BitmapBlock(sb, b);
    blocks[m := PutBlockBit(blocks[m], b % BPB, true)][b := ZeroBlock()]
  }

  /** bfree's effect. */
  function Released(sb: Super, blocks: Disk, b: nat): Disk
    requires BitmapBlock(sb, b) < |blocks|
  {
    var m := BitmapBlock(sb, b);
    blocks[m := PutBlockBit(blocks[m], b % BPB, false)]
  }

  /** Two blocks never share a bitmap bit. */
  lemma BitMoved(sb: Super, blocks: Disk, b: nat, v: bool, c: nat)
    requires Layout(sb, blocks) && b < sb.size && c < sb.size
    ensures BitmapBlock(sb, b) < |blocks| && BitmapBlock(sb, c) < |blocks|
    ensures var m := BitmapBlock(sb, b);
      Used(sb, blocks[m := PutBlockBit(blocks[m], b % BPB, v)], c) == if c == b then v else Used(sb, blocks, c)
  {
    BitmapLow(sb, blocks, b);
    BitmapLow(sb, blocks, c);
    var m := BitmapBlock(sb, b);
    BlockBitOfPut(blocks[m], b % BPB, v, c % BPB);
    assert b == BPB * (b / BPB) + b % BPB && c == BPB * (c / BPB) + c % BPB;
  }

  /** Changing blocks that nobody owns changes no pointer. */
  lemma UnownedKept(sb: Super, img: Image, owner: map<nat, Place>, extra: set<nat>, blocks: Disk)
    requires Owned(sb, img, owner, extra) && |blocks| == |img.blocks|
    requires forall c :: c in owner ==> c < |blocks| && blocks[c] == img.blocks[c]
    ensures forall p :: In(img, p) ==> At(img.(blocks := blocks), p) == At(img, p)
  {
    hide Pointer, Used;
    forall c | 0 < c < |blocks| && IsIndirect(img, c) ensures blocks[c] == img.blocks[c] {
      IndirectOwned(sb, img, owner, extra, c);
    }
    forall p | In(img, p) ensures At(img.(blocks := blocks), p) == At(img, p) {
      PointersKept(img, blocks, p);
    }
  }

  /** The bitmap may change as long as extra accounts for it. */
  lemma Rebalanced(sb: Super, img: Image, owner: map<nat, Place>, extra: set<nat>, blocks: Disk, extra': set<nat>)
    requires Owned(sb, img, owner, extra) && |blocks| == |img.blocks|
    requires forall p :: In(img, p) ==> At(img.(blocks := blocks), p) == At(img, p)
    requires forall b :: b in extra' ==> sb.datastart <= b < sb.size && b !in owner
    requires forall c :: 0 <= c < sb.size ==>
      BitmapBlock(sb, c) < |blocks| && (Used(sb, blocks, c) <==> c < sb.datastart || c in owner || c in extra')
    ensures Owned(sb, img.(blocks := blocks), owner, extra')
  {
    hide Pointer, BlockBit;
  }

  lemma AllocatedOwned(sb: Super, img: Image, owner: map<nat, Place>, extra: set<nat>, b: nat)
    requires Owned(sb, img, owner, extra) && b < sb.size && !Used(sb, img.blocks, b)
    ensures b !in owner && b !in extra && sb.datastart <= b
    ensures Owned(sb, img.(blocks := Allocated(sb, img.blocks, b)), owner, extra + {b})
    ensures forall p :: In(img, p) ==> At(img.(blocks := Allocated(sb, img.blocks, b)), p) == At(img, p)
  {
    hide Pointer, BlockBit, PutBlockBit;
    var blocks := Allocated(sb, img.blocks, b);
    BitmapLow(sb, img.blocks, b);
    UnownedKept(sb, img, owner, extra, blocks);
    forall c | 0 <= c < sb.size
      ensures BitmapBlock(sb, c) < |blocks| && Used(sb, blocks, c) == (c == b || Used(sb, img.blocks, c))
    {
      BitMoved(sb, img.blocks, b, true, c);
      BitmapLow(sb, img.blocks, c);
    }
    hide Used, At, Allocated;
    Rebalanced(sb, img, owner, extra, blocks, extra + {b});
  }

  lemma ReleasedOwned(sb: Super, img: Image, owner: map<nat, Place>, extra: set<nat>, b: nat)
    requires Owned(sb, img, owner, extra) && b in extra
    ensures BitmapBlock(sb, b) < |img.blocks| && Used(sb, img.blocks, b)
    ensures Owned(sb, img.(blocks := Released(sb, img.blocks, b)), owner, extra - {b})
    ensures forall p :: In(img, p) ==> At(img.(blocks := Released(sb, img.blocks, b)), p) == At(img, p)
  {
    hide Pointer, BlockBit, PutBlockBit;
    BitmapLow(sb, img.blocks, b);
    var blocks := Released(sb, img.blocks, b);
    UnownedKept(sb, img, owner, extra, blocks);
    forall c | 0 <= c < sb.size
      ensures BitmapBlock(sb, c) < |blocks| && Used(sb, blocks, c) == (c != b && Used(sb, img.blocks, c))
    {
      BitMoved(sb, img.blocks, b, false, c);
      BitmapLow(sb, img.blocks, c);
    }
    hide Used, At, Released;
    Rebalanced(sb, img, owner, extra, blocks, extra - {b});
  }

  // ---- filling and clearing a slot ----

  /** Slot p, which was empty, now holds block b; nothing else changed. */
  lemma Filled(sb: Super, img: Image, img': Image, owner: map<nat, Place>, extra: set<nat>, p: Place, b: nat)
    requires Owned(sb, img, owner, extra) && b in extra && In(img, p) && At(img, p) == 0
    requires Shape(img') && |img'.inodes| == |img.inodes| && |img'.blocks| == |img.blocks|
    requires forall q :: In(img, q) ==> At(img', q) == if q == p then b else At(img, q)
    requires forall c :: 0 <= c < sb.datastart ==> img'.blocks[c] == img.blocks[c]
    ensures Owned(sb, img', owner[b := p], extra - {b})
  {
    hide BlockBit, Pointer;
    SameBits(sb, img.blocks, img'.blocks);
    forall q | In(img, q) && At(img', q) != 0 ensures At(img', q) in owner[b := p] && owner[b := p][At(img', q)] == q {
    }
  }

  /** The slots of the blocks in gone are now empty; nothing else changed. */
  lemma Cleared(sb: Super, img: Image, img': Image, owner: map<nat, Place>, extra: set<nat>, gone: set<nat>)
    requires Owned(sb, img, owner, extra) && gone <= owner.Keys
    requires Shape(img') && |img'.inodes| == |img.inodes| && img'.blocks == img.blocks
    requires forall q :: In(img, q) ==> At(img', q) == if At(img, q) in gone then 0 else At(img, q)
    ensures Owned(sb, img', owner - gone, extra + gone)
  {
    hide BlockBit, Pointer;
  }

  lemma SameBits(sb: Super, blocks: Disk, blocks': Disk)
    requires Layout(sb, blocks) && |blocks'| == |blocks|
    requires forall c :: 0 <= c < sb.datastart ==> blocks'[c] == blocks[c]
    ensures forall b :: 0 <= b < sb.size ==>
      BitmapBlock(sb, b) < |blocks| && Used(sb, blocks', b) == Used(sb, blocks, b)
  {
    forall b | 0 <= b < sb.size ensures BitmapBlock(sb, b) < |blocks| && Used(sb, blocks', b) == Used(sb, blocks, b) {
      BitmapLow(sb, blocks, b);
    }
  }

  function SetAddr(img: Image, i: nat, s: nat, b: uint): Image
    requires Shape(img) && i < |img.inodes| && s <= INDIRECT
  {
    var ip := img.inodes[i];
    img.(inodes := img.inodes[i := ip.(addrs := ip.addrs[s := b])])
  }

  /** A fresh zeroed block becomes a direct block, or an indirect block with no entries. */
  lemma SetAddrPointers(img: Image, i: nat, s: nat, b: uint, q: Place)
    requires Shape(img) && i < |img.inodes| && s <= INDIRECT && In(img, q)
    requires img.inodes[i].addrs[s] == 0 && b < |img.blocks| && img.blocks[b] == ZeroBlock()
    ensures Shape(SetAddr(img, i, s, b))
    ensures At(SetAddr(img, i, s, b), q) == if q == Place(i, s) then b else At(img, q)
  {
  }

  /** An entry of the indirect block. */
  function SetEntry(img: Image, a: nat, w: nat, b: uint): Image
    requires a < |img.blocks| && w < NINDIRECT
  {
    img.(blocks := img.blocks[a := PutWord(img.blocks[a], w, b)])
  }

  lemma SetEntryPointers(sb: Super, img: Image, owner: map<nat, Place>, extra: set<nat>, i: nat, w: nat, b: uint,
      q: Place)
    requires Owned(sb, img, owner, extra) && i < |img.inodes| && w < NINDIRECT && In(img, q)
    requires img.inodes[i].addrs[INDIRECT] != 0
    ensures var a := img.inodes[i].addrs[INDIRECT];
      a in owner && sb.datastart <= a < |img.blocks|
      && At(SetEntry(img, a, w, b), q) == if q == Place(i, INDIRECT + 1 + w) then b else At(img, q)
  {
    var a := img.inodes[i].addrs[INDIRECT];
    assert At(img, Place(i, INDIRECT)) == a;
    var a' := img.inodes[q.inum].addrs[INDIRECT];
    assert At(img, Place(q.inum, INDIRECT)) == a';
    if a' == a && q.slot > INDIRECT {
      WordOfPut(img.blocks[a], w, b, q.slot - INDIRECT - 1);
    }
  }
}
