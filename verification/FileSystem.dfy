/** fs.c's block layer and file contents: balloc, bfree, bmap, itrunc, readi, writei, iupdate.
    Not ok means the kernel panics. */
module FileSystem {
  import opened Bytes
  import opened Inodes
  import opened FileData

  /** Block b, free in img, was allocated and put into the empty slot p. */
  ghost predicate Added(img: Image, img2: Image, owner: map<nat, Place>, p: Place, b: nat)
    requires Shape(img) && Shape(img2) && |img2.inodes| == |img.inodes|
  {
    && |img2.blocks| == |img.blocks| && b != 0 && In(img, p) && At(img, p) == 0
    && (forall q :: In(img, q) ==> At(img2, q) == if q == p then b else At(img, q))
    && (forall c :: c in owner && owner[c].slot != INDIRECT && c < |img.blocks| ==> img2.blocks[c] == img.blocks[c])
    && (forall j :: 0 <= j < |img.inodes| ==> img2.inodes[j].size == img.inodes[j].size)
    && (forall j :: 0 <= j < |img.inodes| && j != p.inum ==> img2.inodes[j] == img.inodes[j])
  }

  lemma AddAddr(sb: Super, img: Image, owner: map<nat, Place>, i: nat, s: nat, b: nat)
    requires Owned(sb, img, owner, {}) && i < |img.inodes| && s <= INDIRECT && img.inodes[i].addrs[s] == 0
    requires b < sb.size && !Used(sb, img.blocks, b)
    ensures var img2 := SetAddr(img.(blocks := Allocated(sb, img.blocks, b)), i, s, b);
      && Shape(img2) && Owned(sb, img2, owner[b := Place(i, s)], {}) && Added(img, img2, owner, Place(i, s), b)
  {
    var img1 := img.(blocks := Allocated(sb, img.blocks, b));
    AllocatedOwned(sb, img, owner, {}, b);
    BitmapLow(sb, img.blocks, b);
    var img2 := SetAddr(img1, i, s, b);
    forall q | In(img, q) ensures At(img2, q) == if q == Place(i, s) then b else At(img, q) {
      SetAddrPointers(img1, i, s, b, q);
    }
    hide Pointer, BlockBit, PutBlockBit;
    assert {} + {b} - {b} == {};
    Filled(sb, img1, img2, owner, {} + {b}, Place(i, s), b);
  }

  /** The indirect block and the data blocks survive an allocation. */
  lemma AllocatedBlocks(sb: Super, img: Image, owner: map<nat, Place>, b: nat, c: nat)
    requires Owned(sb, img, owner, {}) && b < sb.size && !Used(sb, img.blocks, b) && c in owner
    ensures c != b && c < |img.blocks| && Allocated(sb, img.blocks, b)[c] == img.blocks[c]
  {
    BitmapLow(sb, img.blocks, b);
  }

  /** A block in no slot becomes an entry of the indirect block. */
  lemma FillEntry(sb: Super, img: Image, owner: map<nat, Place>, i: nat, w: nat, b: nat)
    requires Owned(sb, img, owner, {b}) && i < |img.inodes| && w < NINDIRECT
    requires img.inodes[i].addrs[INDIRECT] != 0 && At(img, Place(i, INDIRECT + 1 + w)) == 0
    ensures var a := img.inodes[i].addrs[INDIRECT];
      && a in owner && a < |img.blocks| && b < UINT_MOD && var img2 := SetEntry(img, a, w, b);
      && Shape(img2) && Owned(sb, img2, owner[b := Place(i, INDIRECT + 1 + w)], {})
      && Added(img, img2, owner, Place(i, INDIRECT + 1 + w), b)
  {
    hide Pointer, BlockBit, PutWord;
    var a := img.inodes[i].addrs[INDIRECT];
    var p := Place(i, INDIRECT + 1 + w);
    AddrIs(img, i);
    PlaceOwned(sb, img, owner, {b}, Place(i, INDIRECT));
    var img2 := SetEntry(img, a, w, b);
    forall q | In(img, q) ensures At(img2, q) == if q == p then b else At(img, q) {
      SetEntryPointers(sb, img, owner, {b}, i, w, b, q);
    }
    assert {b} - {b} == {};
    Filled(sb, img, img2, owner, {b}, p, b);
  }

  lemma AddEntry(sb: Super, img: Image, owner: map<nat, Place>, i: nat, w: nat, b: nat)
    requires Owned(sb, img, owner, {}) && i < |img.inodes| && w < NINDIRECT
    requires img.inodes[i].addrs[INDIRECT] != 0 && At(img, Place(i, INDIRECT + 1 + w)) == 0
    requires b < sb.size && !Used(sb, img.blocks, b)
    ensures var a := img.inodes[i].addrs[INDIRECT]; var p := Place(i, INDIRECT + 1 + w);
      && a < |img.blocks| && var img2 := SetEntry(img.(blocks := Allocated(sb, img.blocks, b)), a, w, b);
      && Shape(img2) && Owned(sb, img2, owner[b := p], {}) && Added(img, img2, owner, p, b)
      && Allocated(sb, img.blocks, b)[a] == img.blocks[a]
  {
    hide Pointer, BlockBit, PutBlockBit, PutWord;
    var p := Place(i, INDIRECT + 1 + w);
    AllocatedOwned(sb, img, owner, {}, b);
    var img1 := img.(blocks := Allocated(sb, img.blocks, b));
    forall c | c in owner ensures c < |img.blocks| && img1.blocks[c] == img.blocks[c] {
      AllocatedBlocks(sb, img, owner, b, c);
    }
    assert {} + {b} == {b};
    FillEntry(sb, img1, owner, i, w, b);
    hide Owned, Allocated, SetEntry;
    AddedAfter(img, img1, SetEntry(img1, img.inodes[i].addrs[INDIRECT], w, b), owner, p, b);
  }

  lemma AddedAfter(img: Image, img1: Image, img2: Image, owner: map<nat, Place>, p: Place, b: nat)
    requires Shape(img) && Shape(img2) && |img2.inodes| == |img.inodes| && img1.inodes == img.inodes
    requires Added(img1, img2, owner, p, b) && |img1.blocks| == |img.blocks|
    requires forall q :: In(img, q) ==> At(img1, q) == At(img, q)
    requires forall c :: c in owner ==> c < |img.blocks| && img1.blocks[c] == img.blocks[c]
    ensures Added(img, img2, owner, p, b)
  {
    hide Pointer;
    assert forall q :: In(img, q) <==> In(img1, q);
  }

  /** How bmap reads a slot, and that an occupied one needs no mapping. */
  lemma SlotIs(img: Image, owner: map<nat, Place>, i: nat, bn: nat)
    requires Shape(img) && i < |img.inodes| && bn < MAXFILE
    ensures At(img, Place(i, INDIRECT)) == img.inodes[i].addrs[INDIRECT]
    ensures bn < NDIRECT ==> Slot(img, i, bn) == img.inodes[i].addrs[bn]
    ensures var a := img.inodes[i].addrs[INDIRECT];
      bn >= NDIRECT && 0 < a < |img.blocks| ==> Slot(img, i, bn) == Word(img.blocks[a], bn - NDIRECT)
    ensures Slot(img, i, bn) != 0 ==> Mapped(img, img, owner, i, bn)
  {
  }

  /** A new indirect block has no entries. */
  lemma FreshEntry(img: Image, img2: Image, owner: map<nat, Place>, i: nat, bn: nat, a: nat)
    requires Shape(img) && Shape(img2) && |img2.inodes| == |img.inodes| && i < |img.inodes| && NDIRECT <= bn < MAXFILE
    requires Added(img, img2, owner, Place(i, INDIRECT), a)
    ensures img2.inodes[i].addrs[INDIRECT] == a != 0 && Slot(img2, i, bn) == 0
  {
    assert In(img, Place(i, INDIRECT)) && In(img, Place(i, SlotOf(bn)));
    AddrIs(img2, i);
    AddrIs(img, i);
  }

  lemma AddrIs(img: Image, i: nat)
    requires Shape(img) && i < |img.inodes|
    ensures At(img, Place(i, INDIRECT)) == img.inodes[i].addrs[INDIRECT]
  {
  }

  lemma AddedMapped(img: Image, img2: Image, owner: map<nat, Place>, i: nat, bn: nat, b: nat)
    requires Shape(img) && Shape(img2) && |img2.inodes| == |img.inodes| && i < |img.inodes| && bn < MAXFILE
    requires Added(img, img2, owner, Place(i, SlotOf(bn)), b)
    requires bn >= NDIRECT ==> At(img, Place(i, INDIRECT)) != 0
    ensures Mapped(img, img2, owner, i, bn) && Slot(img2, i, bn) == b
  {
    assert In(img, Place(i, INDIRECT));
  }

  lemma AddedTwice(img: Image, img1: Image, img2: Image, owner: map<nat, Place>, a: nat, i: nat, bn: nat, b: nat)
    requires Shape(img) && Shape(img1) && Shape(img2) && |img2.inodes| == |img1.inodes| == |img.inodes|
    requires i < |img.inodes| && NDIRECT <= bn < MAXFILE && a !in owner
    requires Added(img, img1, owner, Place(i, INDIRECT), a)
    requires Added(img1, img2, owner[a := Place(i, INDIRECT)], Place(i, SlotOf(bn)), b)
    ensures Mapped(img, img2, owner, i, bn) && Slot(img2, i, bn) == b
  {
    assert In(img, Place(i, INDIRECT)) && In(img, Place(i, SlotOf(bn)));
    forall c | c in owner && owner[c].slot != INDIRECT && c < |img.blocks| ensures img2.blocks[c] == img.blocks[c] {
      assert owner[a := Place(i, INDIRECT)][c] == owner[c];
    }
  }

  /** A full disk: every data block is owned. */
  lemma FullRoom(sb: Super, img: Image, owner: map<nat, Place>)
    requires Owned(sb, img, owner, {}) && FullBelow(sb, img.blocks, sb.size)
    ensures |owner| == sb.size - sb.datastart
  {
    Room(sb, img, owner);
    hide Used, Owned;
    assert FreeBlocks(sb, img.blocks) == {};
  }

  /** Every file but i has the same inode, the same blocks and the same bytes. */
  ghost predicate OthersKept(img: Image, img2: Image, i: nat) {
    && |img2.inodes| == |img.inodes| && Shape(img) && Shape(img2) && InBounds(img) && InBounds(img2)
    && (forall j :: 0 <= j < |img.inodes| && j != i ==> SameFile(img, img2, j))
  }

  ghost predicate SameFile(img: Image, img2: Image, j: nat)
    requires Shape(img) && Shape(img2) && InBounds(img) && InBounds(img2) && j < |img.inodes| == |img2.inodes|
  {
    var e := img.inodes[j].size;
    && img2.inodes[j] == img.inodes[j] && Extent(img, j, e) && Extent(img2, j, e)
    && Data(img2, j, e) == Data(img, j, e)
  }

  lemma OthersTransitive(a: Image, b: Image, c: Image, i: nat)
    requires OthersKept(a, b, i) && OthersKept(b, c, i)
    ensures OthersKept(a, c, i)
  {
    forall j | 0 <= j < |a.inodes| && j != i ensures SameFile(a, c, j) {
      assert SameFile(a, b, j) && SameFile(b, c, j);
    }
  }

  lemma MappedOthers(sb: Super, img: Image, owner: map<nat, Place>, img2: Image, owner2: map<nat, Place>, i: nat,
      bn: nat)
    requires Owned(sb, img, owner, {}) && Owned(sb, img2, owner2, {})
    requires Shape(img2) && |img2.inodes| == |img.inodes| && i < |img.inodes| && bn < MAXFILE &&
      Mapped(img, img2, owner, i, bn)
    requires forall j :: 0 <= j < |img.inodes| && j != i ==> Extent(img, j, img.inodes[j].size)
    ensures OthersKept(img, img2, i)
  {
    OwnedInBounds(sb, img, owner, {});
    OwnedInBounds(sb, img2, owner2, {});
    hide Owned;
    forall j | 0 <= j < |img.inodes| && j != i ensures SameFile(img, img2, j) {
      MappedData(sb, img, owner, img2, owner2, i, bn, j, img.inodes[j].size);
    }
  }

  lemma WrittenOthers(sb: Super, img: Image, owner: map<nat, Place>, i: nat, bn: nat, x: Block)
    requires Owned(sb, img, owner, {}) && i < |img.inodes| && bn < MAXFILE && Slot(img, i, bn) != 0
    requires forall j :: 0 <= j < |img.inodes| && j != i ==> Extent(img, j, img.inodes[j].size)
    ensures Slot(img, i, bn) < |img.blocks| && OthersKept(img, img.(blocks := img.blocks[Slot(img, i, bn) := x]), i)
  {
    OwnedInBounds(sb, img, owner, {});
    var img2 := img.(blocks := img.blocks[Slot(img, i, bn) := x]);
    DataWritten(sb, img, owner, i, bn, x);
    OwnedInBounds(sb, img2, owner, {});
    hide Owned, Pointer;
    forall j | 0 <= j < |img.inodes| && j != i ensures SameFile(img, img2, j) {
      var e := img.inodes[j].size;
      ExtentKept(img, img2, j, e);
      forall k | 0 <= k < e ensures Byte(img2, j, k) == Byte(img, j, k) {
        assert Slot(img, j, k / BSIZE) != 0;
        WrittenByte(sb, img, owner, i, bn, x, j, k);
      }
    }
  }

  /** The size field plays no part in the pointers. */
  lemma SizeSet(sb: Super, img: Image, owner: map<nat, Place>, i: nat, size: nat)
    requires Owned(sb, img, owner, {}) && i < |img.inodes|
    ensures var img2 := img.(inodes := img.inodes[i := img.inodes[i].(size := size)]);
      && Owned(sb, img2, owner, {}) && InBounds(img) && InBounds(img2)
      && (forall q :: In(img, q) ==> At(img2, q) == At(img, q))
      && (forall e :: 0 <= e <= MAXFILE * BSIZE ==> Data(img2, i, e) == Data(img, i, e))
  {
    var img2 := img.(inodes := img.inodes[i := img.inodes[i].(size := size)]);
    assert forall q :: In(img, q) ==> At(img2, q) == At(img, q);
    hide Pointer, BlockBit;
    assert Owned(sb, img2, owner, {});
    OwnedInBounds(sb, img, owner, {});
    OwnedInBounds(sb, img2, owner, {});
    forall e | 0 <= e <= MAXFILE * BSIZE ensures Data(img2, i, e) == Data(img, i, e) {
      forall k | 0 <= k < e ensures Byte(img2, i, k) == Byte(img, i, k) {
        assert In(img, Place(i, SlotOf(k / BSIZE)));
      }
    }
  }

  lemma SizeOthers(sb: Super, img: Image, owner: map<nat, Place>, i: nat, size: nat)
    requires Owned(sb, img, owner, {}) && i < |img.inodes|
    requires forall j :: 0 <= j < |img.inodes| && j != i ==> Extent(img, j, img.inodes[j].size)
    ensures OthersKept(img, img.(inodes := img.inodes[i := img.inodes[i].(size := size)]), i)
  {
    var img2 := img.(inodes := img.inodes[i := img.inodes[i].(size := size)]);
    SizeSet(sb, img, owner, i, size);
    hide Pointer, Owned;
    forall j | 0 <= j < |img.inodes| && j != i ensures SameFile(img, img2, j) {
      var e := img.inodes[j].size;
      ExtentKept(img, img2, j, e);
      forall k | 0 <= k < e ensures Byte(img2, j, k) == Byte(img, j, k) {
        assert In(img, Place(j, SlotOf(k / BSIZE)));
      }
    }
  }

  class Fs {
    const sb: Super
    var blocks: Disk                   // what bread returns and log_write stores
    var mem: seq<Inode>                // in-memory inodes
    var dsk: seq<Inode>                // their copies on disk
    ghost var owner: map<nat, Place>
    ghost var logged: set<nat>         // the blocks log_write was called on, those of inodes apart
    ghost var updated: set<nat>        // the inodes whose block it was called on

    ghost function Img(): Image
      reads this
    {
      Image(blocks, mem)
    }

    ghost predicate Consistent()
      reads this
    {
      Owned(sb, Img(), owner, {})
    }

    /** Between operations: consistent, no holes, and the disk inodes up to date. */
    ghost predicate Valid()
      reads this
    {
      && Consistent() && mem == dsk
      && forall i :: 0 <= i < |mem| ==> Extent(Img(), i, mem[i].size)
    }

    /** How many blocks are free. */
    ghost function Spare(): nat
      reads this
    {
      |FreeBlocks(sb, blocks)|
    }

    constructor (super: Super, image: Disk, inodes: seq<Inode>, ghost places: map<nat, Place>)
      requires Owned(super, Image(image, inodes), places, {})
      requires forall i :: 0 <= i < |inodes| ==> Extent(Image(image, inodes), i, inodes[i].size)
      ensures Valid() && sb == super && blocks == image && mem == inodes && owner == places
    {
      sb, blocks, mem, dsk, owner := super, image, inodes, inodes, places;
      logged, updated := {}, {};
    }

    /** balloc: the lowest free block, zeroed; not ok when there is none. */
    method Balloc() returns (ok: bool, r: nat)
      requires Layout(sb, blocks)
      modifies this`blocks, this`logged
      ensures ok ==> r < sb.size && BitmapBlock(sb, r) < |old(blocks)| && !Used(sb, old(blocks), r)
      ensures ok ==> FullBelow(sb, old(blocks), r) && blocks == Allocated(sb, old(blocks), r)
      ensures ok ==> |blocks| == |old(blocks)| && BitPut(sb, old(blocks), blocks, r, true)
      ensures ok ==> forall j :: 0 <= j < 512 ==> blocks[r][j] == 0
      ensures !ok ==> blocks == old(blocks) && FullBelow(sb, blocks, sb.size)
      ensures logged == old(logged) + if ok then {BitmapBlock(sb, r), r} else {}
    {
      hide BlockBit, PutBlockBit, BitPut;
      ok, r := FindFree();
      if ok {
        BitmapLow(sb, blocks, r);
        var m := BitmapBlock(sb, r);
        blocks := blocks[m := PutBlockBit(blocks[m], r % BPB, true)];
        blocks := blocks[r := ZeroBlock()];
        logged := logged + {m, r};
        BitIsPut(sb, old(blocks), blocks, r, true);
      }
    }

    /** balloc's scan, bitmap block by bitmap block. */
    method FindFree() returns (ok: bool, r: nat)
      requires Layout(sb, blocks)
      ensures ok ==> r < sb.size && FullBelow(sb, blocks, r) && !Used(sb, blocks, r)
      ensures !ok ==> r == sb.size && FullBelow(sb, blocks, r)
    {
      hide BlockBit;
      var b := 0;
      while b < sb.size
        invariant b % BPB == 0 && FullBelow(sb, blocks, if b < sb.size then b else sb.size)
      {
        BitmapLow(sb, blocks, b);
        var bp := blocks[BitmapBlock(sb, b)];
        var bi := 0;
        while bi < BPB && b + bi < sb.size
          invariant 0 <= bi <= BPB && b + bi <= sb.size && FullBelow(sb, blocks, b + bi)
        {
          assert BitmapBlock(sb, b + bi) == BitmapBlock(sb, b) && (b + bi) % BPB == bi;
          if !BlockBit(bp, bi) {
            return true, b + bi;
          }
          bi := bi + 1;
        }
        b := b + BPB;
      }
      return false, sb.size;
    }

    /** bfree; not ok is "freeing free block". */
    method Bfree(b: nat) returns (ok: bool)
      requires Layout(sb, blocks) && b < sb.size
      modifies this`blocks, this`logged
      ensures BitmapBlock(sb, b) < |old(blocks)|
      ensures logged == old(logged) + if ok then {BitmapBlock(sb, b)} else {}
      ensures ok == Used(sb, old(blocks), b)
      ensures blocks == if ok then Released(sb, old(blocks), b) else old(blocks)
      ensures ok ==> |blocks| == |old(blocks)| && BitPut(sb, old(blocks), blocks, b, false)
      ensures ok && sb.bmapstart + b / 4096 != b ==> blocks[b] == old(blocks)[b]
    {
      hide BlockBit, PutBlockBit, BitPut;
      BitmapLow(sb, blocks, b);
      var m := BitmapBlock(sb, b);
      ok := BlockBit(blocks[m], b % BPB);
      if ok {
        blocks := blocks[m := PutBlockBit(blocks[m], b % BPB, false)];
        logged := logged + {m};
        BitIsPut(sb, old(blocks), blocks, b, false);
      }
    }

    /** Allocate a block into the empty pointer addrs[s] of inode i. */
    method FillAddr(i: nat, s: nat) returns (ok: bool, addr: uint)
      requires Consistent() && i < |mem| && s <= INDIRECT && mem[i].addrs[s] == 0
      modifies this`blocks, this`mem, this`owner, this`logged
      ensures ok ==>
        Consistent() && |mem| == |old(mem)| && addr !in old(owner) && owner == old(owner)[addr := Place(i, s)]
      ensures ok ==> Shape(Img()) && Added(old(Img()), Img(), old(owner), Place(i, s), addr) && mem[i].addrs[s] == addr
      ensures ok ==> logged == old(logged) + {BitmapBlock(sb, addr), addr as nat}
      ensures !ok ==> blocks == old(blocks) && mem == old(mem) && owner == old(owner) && FullBelow(sb, blocks, sb.size)
    {
      hide Pointer, BlockBit, PutBlockBit;
      var b;
      ok, b := Balloc();
      addr := 0;
      if ok {
        addr := b;
        AllocatedOwned(sb, old(Img()), owner, {}, b);
        AddAddr(sb, old(Img()), owner, i, s, b);
        mem := mem[i := mem[i].(addrs := mem[i].addrs[s := addr])];
        owner := owner[b := Place(i, s)];
      }
    }

    /** bmap, within range (the kernel panics on bn >= MAXFILE). Not ok: the disk is full. */
    method Bmap(i: nat, bn: nat) returns (ok: bool, addr: uint)
      requires Consistent() && i < |mem| && bn < MAXFILE
      modifies this`blocks, this`mem, this`owner, this`logged
      ensures ok ==> Consistent() && |mem| == |old(mem)|
      ensures ok ==> Mapped(old(Img()), Img(), old(owner), i, bn) && addr == Slot(Img(), i, bn)
      ensures Slot(old(Img()), i, bn) != 0 ==> ok && owner == old(owner)
      ensures ok ==> MappedLogged(sb, old(logged), logged, old(owner), owner, old(Img()), Img(), i, bn)
      ensures ok ==> |owner| == |old(owner)| + Missing(old(Img()), i, bn)
      ensures !ok ==>
        Consistent() && FullBelow(sb, blocks, sb.size) && |owner| < |old(owner)| + Missing(old(Img()), i, bn)
    {
      hide Pointer, Owned, Added, Mapped, Word, FullBelow, MappedLogged;
      ok := true;
      ghost var img0, owner0 := Img(), owner;
      OwnedInBounds(sb, img0, owner, {});
      SlotIs(img0, owner, i, bn);
      if bn < NDIRECT {
        addr := mem[i].addrs[bn];
        if addr != 0 {
          MappedNone(sb, logged, owner, img0, i, bn);
        } else {
          ok, addr := FillAddr(i, bn);
          if ok {
            AddedMapped(img0, Img(), owner0, i, bn, addr);
            MappedDirect(sb, old(logged), owner0, img0, Img(), i, bn, addr);
          }
        }
        return;
      }
      ok, addr := MapIndirect(i, bn);
    }

    /** The second half of bmap: through the indirect block. */
    method MapIndirect(i: nat, bn: nat) returns (ok: bool, addr: uint)
      requires Consistent() && i < |mem| && NDIRECT <= bn < MAXFILE
      modifies this`blocks, this`mem, this`owner, this`logged
      ensures ok ==> Consistent() && |mem| == |old(mem)|
      ensures ok ==> Mapped(old(Img()), Img(), old(owner), i, bn) && addr == Slot(Img(), i, bn)
      ensures Slot(old(Img()), i, bn) != 0 ==> ok && owner == old(owner)
      ensures ok ==> MappedLogged(sb, old(logged), logged, old(owner), owner, old(Img()), Img(), i, bn)
      ensures ok ==> |owner| == |old(owner)| + Missing(old(Img()), i, bn)
      ensures !ok ==>
        Consistent() && FullBelow(sb, blocks, sb.size) && |owner| < |old(owner)| + Missing(old(Img()), i, bn)
    {
      hide Pointer, Owned, Added, Mapped, Word, FullBelow, Marks;
      ok := true;
      ghost var img0, owner0 := Img(), owner;
      OwnedInBounds(sb, img0, owner, {});
      SlotIs(img0, owner, i, bn);
      MarksNone(sb, owner);
      ghost var added := mem[i].addrs[INDIRECT] == 0;
      if mem[i].addrs[INDIRECT] == 0 {
        ok, addr := FillAddr(i, INDIRECT);
        if !ok {
          return;
        }
        FreshEntry(img0, Img(), owner0, i, bn, addr);
        MarksOne(sb, owner0, addr, Place(i, INDIRECT));
      }
      ghost var img1, a, owner1 := Img(), mem[i].addrs[INDIRECT], owner;
      OwnedInBounds(sb, img1, owner, {});
      SlotIs(img1, owner, i, bn);
      PlaceOwned(sb, img1, owner, {}, Place(i, INDIRECT));
      addr := Word(blocks[mem[i].addrs[INDIRECT]], bn - NDIRECT);
      if addr == 0 {
        ok, addr := FillWord(i, bn - NDIRECT);
        if ok {
          if added { AddedTwice(img0, img1, Img(), owner0, a, i, bn, addr); }
          else { AddedMapped(img0, Img(), owner0, i, bn, addr); }
          MarksOne(sb, owner1, addr, Place(i, bn + 1));
          MarksMore(sb, owner0, owner1, owner);
          AddrIs(Img(), i);
        }
      }
    }

    /** Allocate a block into the empty entry w of inode i's indirect block. */
    method FillWord(i: nat, w: nat) returns (ok: bool, addr: uint)
      requires Consistent() && i < |mem| && w < NINDIRECT && mem[i].addrs[INDIRECT] != 0
      requires At(Img(), Place(i, INDIRECT + 1 + w)) == 0
      modifies this`blocks, this`owner, this`logged
      ensures ok ==> Consistent() && addr !in old(owner) && owner == old(owner)[addr := Place(i, INDIRECT + 1 + w)]
      ensures ok ==> Shape(Img()) && Added(old(Img()), Img(), old(owner), Place(i, INDIRECT + 1 + w), addr)
      ensures ok ==> logged == old(logged) + {BitmapBlock(sb, addr), addr as nat, mem[i].addrs[INDIRECT] as nat}
      ensures !ok ==> blocks == old(blocks) && owner == old(owner) && FullBelow(sb, blocks, sb.size)
    {
      hide BlockBit, PutBlockBit, Pointer, PutWord;
      var a := mem[i].addrs[INDIRECT];
      var b;
      ok, b := Balloc();
      addr := 0;
      if ok {
        addr := b;
        AllocatedOwned(sb, old(Img()), owner, {}, b);
        AddEntry(sb, old(Img()), owner, i, w, b);
        blocks := blocks[a := PutWord(blocks[a], w, addr)];
        logged := logged + {a as nat};
        owner := owner[b := Place(i, INDIRECT + 1 + w)];
      }
    }

    /** The bytes of file i. */
    ghost function Contents(i: nat): (d: seq<byte>)
      reads this
      requires Consistent() && i < |mem| && mem[i].size <= MAXFILE * BSIZE
      ensures |d| == mem[i].size
    {
      OwnedInBounds(sb, Img(), owner, {});
      Data(Img(), i, mem[i].size)
    }

    /** One round of writei's loop, within one block; e is how far file i reaches so far. */
    method WriteBlock(i: nat, off: nat, s: seq<byte>, ghost e: nat) returns (ok: bool)
      requires Consistent() && i < |mem| && Extent(Img(), i, e) && InBounds(Img())
      requires forall j :: 0 <= j < |mem| && j != i ==> Extent(Img(), j, mem[j].size)
      requires off <= e && 0 < |s| && off % BSIZE + |s| <= BSIZE && off + |s| <= MAXFILE * BSIZE
      modifies this`blocks, this`mem, this`owner, this`logged
      ensures ok ==> Consistent() && OthersKept(old(Img()), Img(), i) && mem[i].size == old(mem)[i].size
      ensures ok ==> Extent(Img(), i, Max(e, off + |s|)) &&
                     Data(Img(), i, Max(e, off + |s|)) == Splice(old(Data(Img(), i, e)), off, s)
      ensures ok && off + |s| <= e ==> mem == old(mem)
      ensures ok ==> |owner| == |old(owner)| + Held(Max(e, off + |s|)) - Held(e)
      ensures ok ==> SlotsKept(old(Img()), Img(), i) && var e2 := Max(e, off + |s|);
        LoggedBy(sb, old(logged), logged, old(owner), owner, Img(), i, off, |s|, e, e2)
      ensures !ok ==> FullBelow(sb, blocks, sb.size) && old(Spare()) < Held(Max(e, off + |s|)) - Held(e)
    {
      hide Pointer, Owned, Data, Splice, Patch, Held, FreeBlocks, Missing, MappedLogged, LoggedBy, SlotsKept;
      var bn := off / BSIZE;
      var a;
      MissingIs(Img(), i, bn, e, off + |s|);
      Room(sb, Img(), owner);
      ok, a := Bmap(i, bn);
      if !ok {
        FullRoom(sb, Img(), owner);
        return;
      }
      ghost var img1 := Img();
      OwnedInBounds(sb, img1, owner, {});
      assert Slot(old(Img()), i, bn) != 0 <==> bn * BSIZE < e;
      MappedOthers(sb, old(Img()), old(owner), img1, owner, i, bn);
      MappedExtent(old(Img()), img1, old(owner), i, bn, e, off + |s|);
      MappedData(sb, old(Img()), old(owner), img1, owner, i, bn, i, e);
      WriteRound(sb, img1, owner, i, off, s, e);
      forall j | 0 <= j < |mem| && j != i ensures Extent(img1, j, mem[j].size) {
        assert SameFile(old(Img()), img1, j);
      }
      WrittenOthers(sb, img1, owner, i, bn, Patch(blocks[a], off % BSIZE, s));
      DataWritten(sb, img1, owner, i, bn, Patch(blocks[a], off % BSIZE, s));
      blocks := blocks[a := Patch(blocks[a], off % BSIZE, s)];
      OthersTransitive(old(Img()), img1, Img(), i);
      RoundLogged(sb, old(logged), logged, old(owner), owner, old(Img()), img1, Img(), i, off, |s|, e);
      logged := logged + {a as nat};
    }

    /** writei's loop: all the bytes in, the size not yet updated. */
    method WriteAll(i: nat, src: seq<byte>, off: nat) returns (ok: bool)
      requires Consistent() && Shape(Img()) && InBounds(Img()) && i < |mem| && OthersKept(Img(), Img(), i)
      requires Extent(Img(), i, mem[i].size) && off <= mem[i].size && off + |src| <= MAXFILE * BSIZE
      modifies this`blocks, this`mem, this`owner, this`logged
      ensures ok ==> Consistent() && OthersKept(old(Img()), Img(), i) && mem[i].size == old(mem)[i].size
      ensures ok ==> var e := Max(mem[i].size, off + |src|);
                     Extent(Img(), i, e) && Data(Img(), i, e) == Splice(old(Data(Img(), i, mem[i].size)), off, src)
      ensures ok && off + |src| <= mem[i].size ==> mem == old(mem)
      ensures ok <==> Held(Max(old(mem)[i].size, off + |src|)) - Held(old(mem)[i].size) <= old(Spare())
      ensures ok ==> Spare() == old(Spare()) - (Held(Max(mem[i].size, off + |src|)) - Held(mem[i].size))
      ensures ok ==> var e, e2 := mem[i].size, Max(mem[i].size, off + |src|);
        LoggedBy(sb, old(logged), logged, old(owner), owner, Img(), i, off, |src|, e, e2)
      ensures !ok ==> FullBelow(sb, blocks, sb.size)
    {
      hide Pointer, Owned, Data, Splice, SlotOf, Slot, Held, FreeBlocks, LoggedBy, SlotsKept;
      ghost var img0, size, d0 := Img(), mem[i].size, Data(Img(), i, mem[i].size);
      SpliceNothing(d0, off);
      Room(sb, img0, owner);
      NoneLogged(sb, logged, owner, img0, i, off, size);
      var tot, o := 0, off;
      while tot < |src|
        invariant 0 <= tot <= |src| && o == off + tot
        invariant Consistent() && Shape(Img()) && InBounds(Img()) && OthersKept(img0, Img(), i) && mem[i].size == size
        invariant Extent(Img(), i, Max(size, o)) && Data(Img(), i, Max(size, o)) == Splice(d0, off, src[..tot])
        invariant o <= size ==> mem == old(mem)
        invariant |owner| == |old(owner)| + Held(Max(size, o)) - Held(size)
        invariant LoggedBy(sb, old(logged), logged, old(owner), owner, Img(), i, off, tot, size, Max(size, o))
      {
        var m := if |src| - tot < BSIZE - o % BSIZE then |src| - tot else BSIZE - o % BSIZE;
        ghost var img1, owner1, logged1 := Img(), owner, logged;
        OthersExtent(img0, img1, i);
        SpliceConcat(d0, off, src[..tot], src[tot..tot + m]);
        Room(sb, img1, owner);
        ok := WriteBlock(i, o, src[tot..tot + m], Max(size, o));
        if !ok {
          HeldMore(Max(size, o + m), Max(size, off + |src|));
          return;
        }
        OwnedInBounds(sb, Img(), owner, {});
        OthersTransitive(img0, img1, Img(), i);
        LoggedMore(sb, old(logged), logged1, logged, old(owner), owner1, owner, img1, Img(), i, off, tot, m, size,
          Max(size, o), Max(size, o + m));
        assert src[..tot + m] == src[..tot] + src[tot..tot + m];
        tot, o := tot + m, o + m;
      }
      assert src[..tot] == src;
      Room(sb, Img(), owner);
      return true;
    }

    /** writei on a regular file. */
    method Writei(i: nat, src: seq<byte>, off: uint) returns (ok: bool, r: int)
      requires Valid() && i < |mem| && |src| < UINT_MOD
      modifies this
      ensures ok ==> Valid() && |mem| == |old(mem)| && OthersKept(old(Img()), Img(), i)
      ensures ok ==> (r == -1 <==> off > old(mem)[i].size || off + |src| > MAXFILE * BSIZE)
      ensures ok && r == -1 ==> mem == old(mem) && blocks == old(blocks)
      ensures ok && r != -1 ==> r == |src| && mem[i].size == Max(old(mem)[i].size, off + |src|) &&
                                Contents(i) == Splice(old(Contents(i)), off, src)
      ensures var size := old(mem)[i].size; var fits := off <= size && off + |src| <= MAXFILE * BSIZE;
        && (ok <==> !fits || Held(Max(size, off + |src|)) - Held(size) <= old(Spare()))
        && (ok && fits ==> Spare() == old(Spare()) - (Held(Max(size, off + |src|)) - Held(size)))
        && (ok && fits && old(logged) == {} ==>
              |logged| == Span(off, |src|) + |Marks(sb, old(owner), owner)|
                          + if NewEntry(size, Max(size, off + |src|)) then 1 else 0)
        && (ok ==> updated == old(updated) + if fits && off + |src| > size then {i} else {})
      ensures !ok ==> FullBelow(sb, blocks, sb.size)
    {
      hide Pointer, Owned, Data, Splice, SlotOf, Slot, Held, FreeBlocks, LoggedBy, Marks, Span, NewEntry;
      ghost var img0 := Img();
      OwnedInBounds(sb, img0, owner, {});
      SelfKept(img0, i);
      if off > mem[i].size || off + |src| >= UINT_MOD {
        return true, -1;
      }
      if off + |src| > MAXFILE * BSIZE {
        return true, -1;
      }
      ok := WriteAll(i, src, off);
      if !ok {
        return ok, 0;
      }
      if old(logged) == {} {
        LoggedCount(sb, logged, old(owner), owner, Img(), i, off, |src|, mem[i].size, Max(mem[i].size, off + |src|));
      }
      if |src| > 0 && off + |src| > mem[i].size {
        Grow(i, off + |src|, img0);
      }
      OthersExtent(img0, Img(), i);
      return true, |src|;
    }

    /** The end of a growing write: the new size, and iupdate. */
    method Grow(i: nat, size: nat, ghost img0: Image)
      requires Consistent() && i < |mem| == |dsk| && Extent(Img(), i, size) && OthersKept(img0, Img(), i) &&
        dsk == img0.inodes
      modifies this`mem, this`dsk, this`updated
      ensures updated == old(updated) + {i}
      ensures Consistent() && mem == dsk && OthersKept(img0, Img(), i)
      ensures mem == old(mem)[i := old(mem)[i].(size := size)]
      ensures Extent(Img(), i, size) && Data(Img(), i, size) == old(Data(Img(), i, size))
    {
      hide Pointer, Owned, Data;
      ghost var img1 := Img();
      OthersExtent(img0, img1, i);
      SizeSet(sb, img1, owner, i, size);
      SizeOthers(sb, img1, owner, i, size);
      mem := mem[i := mem[i].(size := size)];
      dsk := dsk[i := mem[i]];                 // iupdate
      updated := updated + {i};
      ExtentKept(img1, Img(), i, size);
      OthersTransitive(img0, img1, Img(), i);
      DiskInodes(img0.inodes, mem, dsk, i);
    }

    /** readi on a regular file. It calls bmap, which allocates on a missing block; there is none. */
    method Readi(i: nat, off: uint, n: uint) returns (ok: bool, r: int, dst: seq<byte>)
      requires Valid() && i < |mem|
      modifies this`blocks, this`mem, this`owner, this`logged
      ensures ok && blocks == old(blocks) && mem == old(mem) && owner == old(owner)
      ensures r == -1 <==> off > mem[i].size || off + n >= UINT_MOD
      ensures r == -1 ==> dst == []
      ensures r != -1 ==> r == |dst| && dst == Contents(i)[off..Min(off + n, mem[i].size)]
    {
      hide Pointer, Owned, Mapped, Data, SlotOf, MappedLogged;
      OwnedInBounds(sb, Img(), owner, {});
      dst := [];
      if off > mem[i].size || off + n >= UINT_MOD {
        return true, -1, dst;
      }
      var len := if off + n > mem[i].size then mem[i].size - off else n;
      ghost var d := Contents(i);
      var tot, o := 0, off as int;
      while tot < len
        invariant 0 <= tot <= len && o == off + tot && dst == d[off..o]
        invariant blocks == old(blocks) && mem == old(mem) && owner == old(owner)
      {
        assert Slot(Img(), i, o / BSIZE) != 0;
        var a;
        ok, a := Bmap(i, o / BSIZE);
        OwnedInBounds(sb, Img(), owner, {});
        MappedSame(old(Img()), Img(), old(owner), i, o / BSIZE);
        var m := if len - tot < BSIZE - o % BSIZE then len - tot else BSIZE - o % BSIZE;
        ChunkIs(old(Img()), i, o, m, mem[i].size);
        dst := dst + blocks[a][o % BSIZE..o % BSIZE + m];
        tot, o := tot + m, o + m;
      }
      return true, len, dst;
    }

    /** itrunc: frees exactly the blocks of inode i; "freeing free block" cannot happen. */
    method Itrunc(i: nat) returns (ok: bool)
      requires Valid() && i < |mem|
      modifies this
      ensures ok && Valid() && mem == old(mem)[i := Inode(0, seq(NDIRECT + 1, _ => 0))]
      ensures owner == OwnersOther(old(owner), i)
      ensures |blocks| == |old(blocks)| && forall b :: sb.datastart <= b < |blocks| ==> blocks[b] == old(blocks)[b]
    {
      hide Pointer, Owned, Released;
      ghost var img0 := Img();
      OwnedInBounds(sb, Img(), owner, {});
      ok := TruncDirect(i);
      if ok && mem[i].addrs[INDIRECT] != 0 {
        ok := TruncIndirect(i);
      }
      OwnedInBounds(sb, Img(), owner, {});
      OwnersComposed(sb, Img(), old(owner), owner, i);
      OthersUntouched(sb, img0, old(owner), Img(), owner, i);
      NoPointers(Img(), i);
      Grow(i, 0, img0);
      OthersExtent(img0, Img(), i);
      assert mem[i].addrs == seq(NDIRECT + 1, _ => 0);
    }

    /** itrunc's first loop. */
    method TruncDirect(i: nat) returns (ok: bool)
      requires Consistent() && i < |mem| && |mem[i].addrs| == NDIRECT + 1
      modifies this`blocks, this`mem, this`owner, this`logged
      ensures ok && Consistent() && |mem| == |old(mem)| && owner == OwnersFrom(old(owner), i, INDIRECT)
      ensures mem == old(mem)[i := old(mem)[i].(addrs := mem[i].addrs)] && |mem[i].addrs| == NDIRECT + 1
      ensures mem[i].addrs[INDIRECT] == old(mem)[i].addrs[INDIRECT] &&
        forall s :: 0 <= s < INDIRECT ==> mem[i].addrs[s] == 0
      ensures SameData(sb, old(blocks), blocks)
    {
      hide Pointer, Owned;
      ok := true;
      OwnersAll(owner, i);
      OwnedInBounds(sb, Img(), owner, {});
      for s := 0 to NDIRECT
        invariant Consistent() && |mem| == |old(mem)| && owner == OwnersFrom(old(owner), i, s)
        invariant mem == old(mem)[i := old(mem)[i].(addrs := mem[i].addrs)] && |mem[i].addrs| == NDIRECT + 1
        invariant (forall t :: 0 <= t < s ==> mem[i].addrs[t] == 0) &&
          (forall t :: s <= t <= NDIRECT ==> mem[i].addrs[t] == old(mem)[i].addrs[t])
        invariant ok && SameData(sb, old(blocks), blocks)
      {
        OwnersNext(sb, Img(), old(owner), owner, i, s);
        if mem[i].addrs[s] != 0 {
          FreeDirect(sb, Img(), owner, i, s);
          ok := Bfree(mem[i].addrs[s]);
          owner := owner - {mem[i].addrs[s] as nat};
          mem := mem[i := mem[i].(addrs := mem[i].addrs[s := 0])];
        }
      }
    }

    /** itrunc's second half: the entries of the indirect block, then the block itself. */
    method TruncIndirect(i: nat) returns (ok: bool)
      requires Consistent() && i < |mem| && |mem[i].addrs| == NDIRECT + 1 && mem[i].addrs[INDIRECT] != 0
      requires forall s :: 0 <= s < INDIRECT ==> mem[i].addrs[s] == 0
      modifies this`blocks, this`mem, this`owner, this`logged
      ensures ok && Consistent() && owner == OwnersOther(old(owner), i)
      ensures mem == old(mem)[i := old(mem)[i].(addrs := old(mem)[i].addrs[INDIRECT := 0])]
      ensures SameData(sb, old(blocks), blocks)
    {
      hide Pointer, Owned, Released;
      ok := true;
      ghost var img0 := Img();
      OwnedInBounds(sb, img0, owner, {});
      AddrIs(img0, i);
      PlaceOwned(sb, img0, owner, {}, Place(i, INDIRECT));
      Orphaned(sb, img0, owner, i);
      var addr := mem[i].addrs[INDIRECT];
      var a := blocks[addr];
      ghost var inodes := SetAddr(img0, i, INDIRECT, 0).inodes;
      ghost var rest := OwnersOther(owner, i);
      for j := 0 to NINDIRECT
        invariant ok && mem == old(mem) && owner == old(owner) && SameData(sb, old(blocks), blocks)
        invariant Owned(sb, Image(blocks, inodes), rest, Orphans(owner, i, j))
      {
        OrphansNext(sb, img0, owner, i, j);
        if Word(a, j) != 0 {
          ReleaseOrphan(sb, Image(blocks, inodes), rest, Orphans(owner, i, j), Word(a, j));
          ok := Bfree(Word(a, j));
        }
      }
      OrphansLast(sb, img0, owner, i);
      ReleaseOrphan(sb, Image(blocks, inodes), rest, {addr as nat}, addr);
      ok := Bfree(addr);
      assert {addr as nat} - {addr as nat} == {};
      mem := mem[i := mem[i].(addrs := mem[i].addrs[INDIRECT := 0])];
      owner := rest;
    }
  }

  /** Blocks outside the bitmap are as they were. */
  ghost predicate SameData(sb: Super, blocks: Disk, blocks2: Disk) {
    |blocks2| == |blocks| && Layout(sb, blocks) && forall b :: sb.datastart <= b < |blocks| ==> blocks2[b] == blocks[b]
  }

  /** The owners left after clearing slots 0..s-1 of inode i. */
  ghost function OwnersFrom(owner: map<nat, Place>, i: nat, s: nat): map<nat, Place> {
    map b | b in owner && (owner[b].inum != i || owner[b].slot >= s) :: owner[b]
  }

  lemma OwnersAll(owner: map<nat, Place>, i: nat)
    ensures OwnersFrom(owner, i, 0) == owner
  {
  }

  /** Once inode i has no pointers, it owns nothing. */
  lemma OwnersComposed(sb: Super, img: Image, owner0: map<nat, Place>, owner: map<nat, Place>, i: nat)
    requires Owned(sb, img, owner, {}) && i < |img.inodes| && |img.inodes[i].addrs| == NDIRECT + 1
    requires forall s :: 0 <= s <= INDIRECT ==> img.inodes[i].addrs[s] == 0
    requires owner == OwnersFrom(owner0, i, INDIRECT) || owner == OwnersOther(OwnersFrom(owner0, i, INDIRECT), i)
    ensures owner == OwnersOther(owner0, i)
  {
    forall b | b in owner ensures owner[b].inum != i {
      assert At(img, owner[b]) == b;
    }
  }

  lemma OwnersNext(sb: Super, img: Image, owner0: map<nat, Place>, owner: map<nat, Place>, i: nat, s: nat)
    requires Owned(sb, img, owner, {}) && i < |img.inodes| && s < INDIRECT && owner == OwnersFrom(owner0, i, s)
    requires |img.inodes[i].addrs| == NDIRECT + 1
    ensures OwnersFrom(owner0, i, s + 1) == if img.inodes[i].addrs[s] == 0 then owner
      else owner - {img.inodes[i].addrs[s] as nat}
  {
    var b := img.inodes[i].addrs[s];
    assert At(img, Place(i, s)) == b;
    assert forall c :: c in owner && owner[c] == Place(i, s) ==> c == b;
  }

  lemma FreeDirect(sb: Super, img: Image, owner: map<nat, Place>, i: nat, s: nat)
    requires Owned(sb, img, owner, {}) && i < |img.inodes| && s < INDIRECT
    requires |img.inodes[i].addrs| == NDIRECT + 1 && img.inodes[i].addrs[s] != 0
    ensures var b := img.inodes[i].addrs[s];
      && Layout(sb, img.blocks) && sb.datastart <= b < sb.size && BitmapBlock(sb, b) < |img.blocks|
      && Used(sb, img.blocks, b)
      && var blocks := Released(sb, img.blocks, b);
      && Owned(sb, SetAddr(img.(blocks := blocks), i, s, 0), owner - {b as nat}, {}) && SameData(sb, img.blocks, blocks)
  {
    var b: nat := img.inodes[i].addrs[s];
    assert At(img, Place(i, s)) == b;
    var img1 := SetAddr(img, i, s, 0);
    forall q | In(img, q) ensures At(img1, q) == if At(img, q) in {b} then 0 else At(img, q) {
    }
    hide Pointer, BlockBit, PutBlockBit;
    Cleared(sb, img, img1, owner, {}, {b});
    assert {} + {b} == {b} && {b} - {b} == {};
    ReleasedOwned(sb, img1, owner - {b}, {b}, b);
    ReleasedData(sb, img.blocks, b);
  }

  lemma ReleasedData(sb: Super, blocks: Disk, b: nat)
    requires Layout(sb, blocks) && b < sb.size
    ensures BitmapBlock(sb, b) < |blocks| && SameData(sb, blocks, Released(sb, blocks, b))
  {
    hide BlockBit, PutBlockBit;
    BitmapLow(sb, blocks, b);
  }

  /** The blocks of inode i still to be freed when entries 0..j-1 are done. */
  ghost function Orphans(owner: map<nat, Place>, i: nat, j: nat): set<nat> {
    set b | b in owner && owner[b].inum == i && (owner[b].slot == INDIRECT || owner[b].slot >= INDIRECT + 1 + j)
  }

  /** With the direct pointers gone, clearing the indirect pointer orphans all that is left of inode i. */
  lemma Orphaned(sb: Super, img: Image, owner: map<nat, Place>, i: nat)
    requires Owned(sb, img, owner, {}) && i < |img.inodes| && |img.inodes[i].addrs| == NDIRECT + 1
    requires forall s :: 0 <= s < INDIRECT ==> img.inodes[i].addrs[s] == 0
    ensures Shape(img) && Owned(sb, SetAddr(img, i, INDIRECT, 0), OwnersOther(owner, i), Orphans(owner, i, 0))
  {
    var img1 := SetAddr(img, i, INDIRECT, 0);
    var gone := Orphans(owner, i, 0);
    forall b | b in owner && owner[b].inum == i ensures b in gone {
      assert At(img, owner[b]) == b;
    }
    forall q | In(img, q) ensures At(img1, q) == if At(img, q) in gone then 0 else At(img, q) {
    }
    hide Pointer, BlockBit;
    Cleared(sb, img, img1, owner, {}, gone);
    assert owner - gone == OwnersOther(owner, i);
    assert {} + gone == gone;
  }

  lemma OrphansNext(sb: Super, img: Image, owner: map<nat, Place>, i: nat, j: nat)
    requires Owned(sb, img, owner, {}) && i < |img.inodes| && |img.inodes[i].addrs| == NDIRECT + 1 && j < NINDIRECT
    requires 0 < img.inodes[i].addrs[INDIRECT] < |img.blocks|
    ensures var w := Word(img.blocks[img.inodes[i].addrs[INDIRECT]], j);
      && (w != 0 ==> w as nat in Orphans(owner, i, j))
      && Orphans(owner, i, j + 1) == if w == 0 then Orphans(owner, i, j) else Orphans(owner, i, j) - {w as nat}
  {
    var w := Word(img.blocks[img.inodes[i].addrs[INDIRECT]], j);
    assert At(img, Place(i, INDIRECT + 1 + j)) == w;
    hide Word;
    assert forall c :: c in owner && owner[c] == Place(i, INDIRECT + 1 + j) ==> c == w;
    forall c | c in Orphans(owner, i, j) && c != w ensures c in Orphans(owner, i, j + 1) {
      assert owner[c] != Place(i, INDIRECT + 1 + j);
    }
  }

  lemma OrphansLast(sb: Super, img: Image, owner: map<nat, Place>, i: nat)
    requires Owned(sb, img, owner, {}) && i < |img.inodes| && |img.inodes[i].addrs| == NDIRECT + 1
    requires img.inodes[i].addrs[INDIRECT] != 0
    ensures Orphans(owner, i, NINDIRECT) == {img.inodes[i].addrs[INDIRECT] as nat}
  {
    AddrIs(img, i);
    PlaceOwned(sb, img, owner, {}, Place(i, INDIRECT));
    forall c | c in Orphans(owner, i, NINDIRECT) ensures c == img.inodes[i].addrs[INDIRECT] {
      assert At(img, owner[c]) == c && owner[c] == Place(i, INDIRECT);
    }
  }

  lemma ReleaseOrphan(sb: Super, img: Image, owner: map<nat, Place>, extra: set<nat>, b: nat)
    requires Owned(sb, img, owner, extra) && b in extra
    ensures Layout(sb, img.blocks) && b < sb.size && BitmapBlock(sb, b) < |img.blocks| && Used(sb, img.blocks, b)
    ensures Owned(sb, Image(Released(sb, img.blocks, b), img.inodes), owner, extra - {b})
    ensures SameData(sb, img.blocks, Released(sb, img.blocks, b))
  {
    hide BlockBit, PutBlockBit, Pointer;
    ReleasedOwned(sb, img, owner, extra, b);
    ReleasedData(sb, img.blocks, b);
  }

  /** An inode with no pointers has an empty extent. */
  lemma NoPointers(img: Image, i: nat)
    requires Shape(img) && i < |img.inodes| && forall s :: 0 <= s <= INDIRECT ==> img.inodes[i].addrs[s] == 0
    ensures Extent(img, i, 0)
  {
  }

  lemma SameInode(sb: Super, img: Image, owner: map<nat, Place>, img2: Image, p: Place)
    requires Owned(sb, img, owner, {}) && SameData(sb, img.blocks, img2.blocks) && In(img, p) && Shape(img2)
    requires p.inum < |img2.inodes| && img2.inodes[p.inum] == img.inodes[p.inum]
    ensures At(img2, p) == At(img, p)
  {
    if img.inodes[p.inum].addrs[INDIRECT] != 0 {
      AddrIs(img, p.inum);
      PlaceOwned(sb, img, owner, {}, Place(p.inum, INDIRECT));
    }
  }

  lemma OthersUntouched(sb: Super, img: Image, owner: map<nat, Place>, img2: Image, owner2: map<nat, Place>, i: nat)
    requires Owned(sb, img, owner, {}) && Owned(sb, img2, owner2, {}) && SameData(sb, img.blocks, img2.blocks)
    requires |img2.inodes| == |img.inodes| &&
      forall j :: 0 <= j < |img.inodes| && j != i ==> img2.inodes[j] == img.inodes[j]
    requires forall j :: 0 <= j < |img.inodes| ==> Extent(img, j, img.inodes[j].size)
    ensures OthersKept(img, img2, i)
  {
    OwnedInBounds(sb, img, owner, {});
    OwnedInBounds(sb, img2, owner2, {});
    hide Pointer, Owned;
    forall j, s | 0 <= j < |img.inodes| && j != i && 0 <= s < NSLOT
      ensures At(img2, Place(j, s)) == At(img, Place(j, s))
    {
      SameInode(sb, img, owner, img2, Place(j, s));
    }
    forall j | 0 <= j < |img.inodes| && j != i ensures SameFile(img, img2, j) {
      var e := img.inodes[j].size;
      forall c | 0 <= c < MAXFILE ensures Slot(img2, j, c) == Slot(img, j, c) {
        assert In(img, Place(j, SlotOf(c)));
      }
      assert At(img2, Place(j, INDIRECT)) == At(img, Place(j, INDIRECT));
      forall k | 0 <= k < e ensures Byte(img2, j, k) == Byte(img, j, k) {
        assert Slot(img, j, k / BSIZE) != 0;
        PlaceOwned(sb, img, owner, {}, Place(j, SlotOf(k / BSIZE)));
      }
    }
  }

  lemma MappedSame(img: Image, img2: Image, owner: map<nat, Place>, i: nat, bn: nat)
    requires Shape(img) && Shape(img2) && |img2.inodes| == |img.inodes| && i < |img.inodes| && bn < MAXFILE
    requires Mapped(img, img2, owner, i, bn) && Slot(img, i, bn) != 0
    ensures img2 == img
  {
  }

  lemma ChunkIs(img: Image, i: nat, o: nat, m: nat, e: nat)
    requires Shape(img) && InBounds(img) && Extent(img, i, e) && 0 < m && o + m <= e && o % BSIZE + m <= BSIZE
    ensures img.blocks[Slot(img, i, o / BSIZE)][o % BSIZE..o % BSIZE + m] == Data(img, i, e)[o..o + m]
  {
    hide Pointer;
    var l, r := img.blocks[Slot(img, i, o / BSIZE)][o % BSIZE..o % BSIZE + m], Data(img, i, e)[o..o + m];
    forall k | 0 <= k < m ensures l[k] == r[k] {
      assert (o + k) / BSIZE == o / BSIZE && (o + k) % BSIZE == o % BSIZE + k;
      assert Data(img, i, e)[o + k] == Byte(img, i, o + k);
    }
  }

  ghost function OwnersOther(owner: map<nat, Place>, i: nat): map<nat, Place> {
    map b | b in owner && owner[b].inum != i :: owner[b]
  }

  lemma SpliceNothing(d: seq<byte>, off: nat)
    requires off <= |d|
    ensures Splice(d, off, []) == d
  {
  }

  lemma SelfKept(img: Image, i: nat)
    requires Shape(img) && InBounds(img) && forall j :: 0 <= j < |img.inodes| ==> Extent(img, j, img.inodes[j].size)
    ensures OthersKept(img, img, i)
  {
  }

  lemma OthersExtent(img: Image, img2: Image, i: nat)
    requires OthersKept(img, img2, i)
    ensures forall j :: 0 <= j < |img2.inodes| && j != i ==> Extent(img2, j, img2.inodes[j].size)
    ensures forall j :: 0 <= j < |img2.inodes| && j != i ==> img2.inodes[j] == img.inodes[j]
  {
    forall j | 0 <= j < |img2.inodes| && j != i
      ensures Extent(img2, j, img2.inodes[j].size) && img2.inodes[j] == img.inodes[j]
    {
      assert SameFile(img, img2, j);
    }
  }

  lemma DiskInodes(mem0: seq<Inode>, mem: seq<Inode>, dsk: seq<Inode>, i: nat)
    requires i < |mem0| == |mem| && forall j :: 0 <= j < |mem| && j != i ==> mem[j] == mem0[j]
    requires dsk == mem0[i := mem[i]]
    ensures mem == dsk
  {
  }

  /** The bitmap bit of block b is v, every other bit of its bitmap block is as it was, and so is every other
      block but b itself. */
  ghost predicate BitPut(sb: Super, d: Disk, d': Disk, b: nat, v: bool)
    requires |d'| == |d| && sb.bmapstart + b / 4096 < |d|
  {
    var m := sb.bmapstart + b / 4096;
    && (m != b ==> forall j :: 0 <= j < 4096 ==> BlockBit(d'[m], j) == if j == b % 4096 then v else BlockBit(d[m], j))
    && forall c :: 0 <= c < |d| && c != m && c != b ==> d'[c] == d[c]
  }

  lemma BitIsPut(sb: Super, d: Disk, d': Disk, b: nat, v: bool)
    requires |d'| == |d| && BitmapBlock(sb, b) < |d|
    requires var m := BitmapBlock(sb, b);
      && (m != b ==> d'[m] == PutBlockBit(d[m], b % BPB, v))
      && forall c :: 0 <= c < |d| && c != m && c != b ==> d'[c] == d[c]
    ensures BitPut(sb, d, d', b, v)
  {
    hide BlockBit, PutBlockBit;
    var m := BitmapBlock(sb, b);
    if m != b {
      forall j | 0 <= j < 4096 ensures BlockBit(d'[m], j) == if j == b % 4096 then v else BlockBit(d[m], j) {
        BlockBitOfPut(d[m], b % BPB, v, j);
      }
    }
  }

  /** Every block below r is in use. */
  ghost predicate FullBelow(sb: Super, blocks: Disk, r: nat) {
    forall c :: 0 <= c < r ==> BitmapBlock(sb, c) < |blocks| && Used(sb, blocks, c)
  }
}
