/** Files as flat byte sequences over the blocks of Inodes. */
module FileData {
  import opened Bytes
  import opened Inodes
  import Sets

  /** The first e bytes of file i have blocks, and nothing else does: no holes. */
  ghost predicate Extent(img: Image, i: nat, e: nat) {
    && Shape(img) && i < |img.inodes| && e <= MAXFILE * BSIZE
    && (forall bn :: 0 <= bn < MAXFILE ==> (Slot(img, i, bn) != 0 <==> bn * BSIZE < e))
    && (At(img, Place(i, INDIRECT)) != 0 <==> NDIRECT * BSIZE < e)
  }

  /** How many blocks a file of e bytes holds, its indirect block included. */
  function Held(e: nat): nat {
    (e + BSIZE - 1) / BSIZE + if e > NDIRECT * BSIZE then 1 else 0
  }

  lemma HeldMore(e: nat, f: nat)
    requires e <= f
    ensures Held(e) <= Held(f)
  {
  }

  /** What bmap(ip, bn) has to allocate. */
  function Missing(img: Image, i: nat, bn: nat): nat
    requires Shape(img) && i < |img.inodes| && bn < MAXFILE
  {
    if Slot(img, i, bn) != 0 then 0
    else if bn >= NDIRECT && At(img, Place(i, INDIRECT)) == 0 then 2 else 1
  }

  /** Writing up to m within block bn, which lies in the file or at its end. */
  lemma MissingIs(img: Image, i: nat, bn: nat, e: nat, m: nat)
    requires Extent(img, i, e) && bn < MAXFILE && bn * BSIZE <= e && bn * BSIZE < m <= (bn + 1) * BSIZE
    ensures Missing(img, i, bn) == Held(Max(e, m)) - Held(e)
  {
    hide At;
    assert Slot(img, i, bn) != 0 <==> bn * BSIZE < e;
    if bn * BSIZE < e {
      assert m > e ==> (m + BSIZE - 1) / BSIZE == bn + 1 == (e + BSIZE - 1) / BSIZE;
    } else {
      assert (m + BSIZE - 1) / BSIZE == bn + 1 && (e + BSIZE - 1) / BSIZE == bn;
    }
  }

  /** bmap's answer for block bn of file i, 0 if there is none. */
  function Slot(img: Image, i: nat, bn: nat): uint
    requires Shape(img) && i < |img.inodes| && bn < MAXFILE
  {
    At(img, Place(i, SlotOf(bn)))
  }

  ghost predicate InBounds(img: Image)
    requires Shape(img)
  {
    forall i, bn :: 0 <= i < |img.inodes| && 0 <= bn < MAXFILE ==> Slot(img, i, bn) < |img.blocks|
  }

  lemma OwnedInBounds(sb: Super, img: Image, owner: map<nat, Place>, extra: set<nat>)
    requires Owned(sb, img, owner, extra)
    ensures Shape(img) && InBounds(img) && Layout(sb, img.blocks)
  {
  }

  /** Byte k of file i. */
  function Byte(img: Image, i: nat, k: nat): byte
    requires Shape(img) && InBounds(img) && i < |img.inodes| && k < MAXFILE * BSIZE
  {
    img.blocks[Slot(img, i, k / BSIZE)][k % BSIZE]
  }

  /** The first e bytes of file i. */
  function Data(img: Image, i: nat, e: nat): (r: seq<byte>)
    requires Shape(img) && InBounds(img) && i < |img.inodes| && e <= MAXFILE * BSIZE
    ensures |r| == e
  {
    seq(e, k requires 0 <= k < e => Byte(img, i, k))
  }

  /** s written over d at off, which may reach past the end. */
  function Splice(d: seq<byte>, off: nat, s: seq<byte>): seq<byte>
    requires off <= |d|
  {
    if off + |s| <= |d| then d[..off] + s + d[off + |s|..] else d[..off] + s
  }

  lemma SpliceConcat(d: seq<byte>, off: nat, s: seq<byte>, t: seq<byte>)
    requires off <= |d|
    ensures off + |s| <= |Splice(d, off, s)| && Splice(Splice(d, off, s), off + |s|, t) == Splice(d, off, s + t)
  {
    var l, r := Splice(Splice(d, off, s), off + |s|, t), Splice(d, off, s + t);
    assert |l| == |r|;
    forall k | 0 <= k < |l| ensures l[k] == r[k] {
      SpliceAt(Splice(d, off, s), off + |s|, t, k);
      SpliceAt(d, off, s + t, k);
      if k < |Splice(d, off, s)| { SpliceAt(d, off, s, k); }
    }
  }

  lemma SpliceAt(d: seq<byte>, off: nat, s: seq<byte>, k: nat)
    requires off <= |d| && k < |Splice(d, off, s)|
    ensures |Splice(d, off, s)| == Max(|d|, off + |s|)
    ensures Splice(d, off, s)[k] == if off <= k < off + |s| then s[k - off] else if k < |d| then d[k] else 0
  {
  }

  // ---- bmap ----

  /** bmap(ip, bn) turned img into img2: the slot is filled (with a zeroed block if it was empty),
      an indirect block may have been added for it, every other pointer and every data block is as before. */
  ghost predicate Mapped(img: Image, img2: Image, owner: map<nat, Place>, i: nat, bn: nat)
    requires Shape(img) && Shape(img2) && |img2.inodes| == |img.inodes| && i < |img.inodes| && bn < MAXFILE
  {
    && |img2.blocks| == |img.blocks|
    && Slot(img2, i, bn) != 0
    && (Slot(img, i, bn) != 0 ==> img2 == img)
    && (forall q :: In(img, q) && q != Place(i, SlotOf(bn)) && q != Place(i, INDIRECT) ==> At(img2, q) == At(img, q))
    && (At(img, Place(i, INDIRECT)) != 0 || bn < NDIRECT ==>
        At(img2, Place(i, INDIRECT)) == At(img, Place(i, INDIRECT)))
    && (bn >= NDIRECT ==> At(img2, Place(i, INDIRECT)) != 0)
    && (forall b :: b in owner && owner[b].slot != INDIRECT && b < |img.blocks| ==> img2.blocks[b] == img.blocks[b])
    && (forall j :: 0 <= j < |img.inodes| ==> img2.inodes[j].size == img.inodes[j].size)
    && (forall j :: 0 <= j < |img.inodes| && j != i ==> img2.inodes[j] == img.inodes[j])
  }

  lemma MappedData(sb: Super, img: Image, owner: map<nat, Place>, img2: Image, owner2: map<nat, Place>, i: nat, bn: nat,
      j: nat, e: nat)
    requires Owned(sb, img, owner, {}) && Owned(sb, img2, owner2, {})
    requires Shape(img2) && Extent(img, j, e)
    requires |img2.inodes| == |img.inodes| && i < |img.inodes| && bn < MAXFILE && Mapped(img, img2, owner, i, bn)
    ensures InBounds(img) && InBounds(img2) && Data(img2, j, e) == Data(img, j, e)
    ensures j != i ==> Extent(img2, j, e)
  {
    hide Owned;
    OwnedInBounds(sb, img, owner, {});
    OwnedInBounds(sb, img2, owner2, {});
    forall k | 0 <= k < e ensures Byte(img2, j, k) == Byte(img, j, k) {
      var q := Place(j, SlotOf(k / BSIZE));
      assert Slot(img, j, k / BSIZE) != 0;
      PlaceOwned(sb, img, owner, {}, q);
    }
    if j != i {
      forall c | 0 <= c < MAXFILE ensures Slot(img2, j, c) == Slot(img, j, c) {
        assert In(img, Place(j, SlotOf(c)));
      }
      assert In(img, Place(j, INDIRECT));
    }
  }

  lemma PlaceOwned(sb: Super, img: Image, owner: map<nat, Place>, extra: set<nat>, q: Place)
    requires Owned(sb, img, owner, extra) && In(img, q) && At(img, q) != 0
    ensures At(img, q) in owner && owner[At(img, q)] == q && sb.datastart <= At(img, q) < |img.blocks|
  {
  }

  /** Mapping the block at the end of the file extends it; mapping one before the end does not. */
  lemma MappedExtent(img: Image, img2: Image, owner: map<nat, Place>, i: nat, bn: nat, e: nat, m: nat)
    requires Extent(img, i, e) && Shape(img2) && |img2.inodes| == |img.inodes| && bn < MAXFILE
    requires Mapped(img, img2, owner, i, bn)
    requires bn * BSIZE <= e && bn * BSIZE < m <= (bn + 1) * BSIZE
    ensures Extent(img2, i, Max(e, m))
  {
    forall c | 0 <= c < MAXFILE ensures Slot(img2, i, c) != 0 <==> c * BSIZE < Max(e, m) {
      assert In(img, Place(i, SlotOf(c)));
      assert Slot(img, i, c) != 0 <==> c * BSIZE < e;
    }
    assert Slot(img, i, bn) != 0 <==> bn * BSIZE < e;
    assert In(img, Place(i, INDIRECT));
  }

  // ---- writing a data block ----

  lemma DataWritten(sb: Super, img: Image, owner: map<nat, Place>, i: nat, bn: nat, x: Block)
    requires Owned(sb, img, owner, {}) && i < |img.inodes| && bn < MAXFILE && Slot(img, i, bn) != 0
    ensures Slot(img, i, bn) < |img.blocks|
    ensures var img2 := img.(blocks := img.blocks[Slot(img, i, bn) := x]);
      && Owned(sb, img2, owner, {})
      && (forall q :: In(img, q) ==> At(img2, q) == At(img, q))
  {
    var p := Place(i, SlotOf(bn));
    var a := At(img, p);
    PlaceOwned(sb, img, owner, {}, p);
    var img2 := img.(blocks := img.blocks[a := x]);
    forall b | 0 < b < |img.blocks| && IsIndirect(img, b) ensures img2.blocks[b] == img.blocks[b] {
      IndirectOwned(sb, img, owner, {}, b);
    }
    hide Pointer, BlockBit;
    forall q | In(img, q) ensures At(img2, q) == At(img, q) {
      PointersKept(img, img2.blocks, q);
    }
    SameBits(sb, img.blocks, img2.blocks);
  }

  /** Only the written file's bytes change, and only in the written block. */
  lemma WrittenByte(sb: Super, img: Image, owner: map<nat, Place>, i: nat, bn: nat, x: Block, j: nat, k: nat)
    requires Owned(sb, img, owner, {}) && i < |img.inodes| && bn < MAXFILE && Slot(img, i, bn) != 0
    requires j < |img.inodes| && k < MAXFILE * BSIZE && Slot(img, j, k / BSIZE) != 0
    ensures Slot(img, i, bn) < |img.blocks|
    ensures var img2 := img.(blocks := img.blocks[Slot(img, i, bn) := x]);
      && Shape(img2) && InBounds(img2) && InBounds(img)
      && Byte(img2, j, k) == if j == i && k / BSIZE == bn then x[k % BSIZE] else Byte(img, j, k)
  {
    DataWritten(sb, img, owner, i, bn, x);
    var img2 := img.(blocks := img.blocks[Slot(img, i, bn) := x]);
    OwnedInBounds(sb, img, owner, {});
    OwnedInBounds(sb, img2, owner, {});
    PlaceOwned(sb, img, owner, {}, Place(i, SlotOf(bn)));
    PlaceOwned(sb, img, owner, {}, Place(j, SlotOf(k / BSIZE)));
    hide Owned;
  }

  /** The bytes of block x with s stored at o. */
  function Patch(x: Block, o: nat, s: seq<byte>): Block
    requires o + |s| <= BSIZE
  {
    x[..o] + s + x[o + |s|..]
  }

  /** One round of writei: block off / BSIZE is mapped, part of it is overwritten. */
  lemma WriteRound(sb: Super, img: Image, owner: map<nat, Place>, i: nat, off: nat, s: seq<byte>, e: nat)
    requires Owned(sb, img, owner, {}) && off / BSIZE < MAXFILE && off <= e
    requires 0 < |s| && off % BSIZE + |s| <= BSIZE
    requires Extent(img, i, Max(e, off + |s|))
    ensures Slot(img, i, off / BSIZE) < |img.blocks| && InBounds(img)
    ensures var a := Slot(img, i, off / BSIZE);
      var img2 := img.(blocks := img.blocks[a := Patch(img.blocks[a], off % BSIZE, s)]);
      var e2 := Max(e, off + |s|);
      && Owned(sb, img2, owner, {}) && Extent(img2, i, e2) && InBounds(img2)
      && Data(img2, i, e2) == Splice(Data(img, i, e), off, s)
  {
    hide Owned, Pointer;
    var bn, e2 := off / BSIZE, Max(e, off + |s|);
    assert Slot(img, i, bn) != 0;
    var a := Slot(img, i, bn);
    OwnedInBounds(sb, img, owner, {});
    var x := Patch(img.blocks[a], off % BSIZE, s);
    var img2 := img.(blocks := img.blocks[a := x]);
    DataWritten(sb, img, owner, i, bn, x);
    OwnedInBounds(sb, img2, owner, {});
    ExtentKept(img, img2, i, e2);
    var d, d2 := Splice(Data(img, i, e), off, s), Data(img2, i, e2);
    forall k | 0 <= k < e2 ensures d2[k] == d[k] {
      RoundByte(sb, img, owner, i, off, s, e, k);
    }
    SpliceLength(Data(img, i, e), off, s);
  }

  lemma SpliceLength(d: seq<byte>, off: nat, s: seq<byte>)
    requires off <= |d|
    ensures |Splice(d, off, s)| == Max(|d|, off + |s|)
  {
  }

  lemma ExtentKept(img: Image, img2: Image, i: nat, e: nat)
    requires Extent(img, i, e) && Shape(img2) && |img2.inodes| == |img.inodes|
    requires forall q :: In(img, q) ==> At(img2, q) == At(img, q)
    ensures Extent(img2, i, e)
  {
    forall c | 0 <= c < MAXFILE ensures Slot(img2, i, c) == Slot(img, i, c) {
      assert In(img, Place(i, SlotOf(c)));
    }
    assert In(img, Place(i, INDIRECT));
  }

  lemma RoundByte(sb: Super, img: Image, owner: map<nat, Place>, i: nat, off: nat, s: seq<byte>, e: nat, k: nat)
    requires Owned(sb, img, owner, {}) && off / BSIZE < MAXFILE && off <= e
    requires 0 < |s| && off % BSIZE + |s| <= BSIZE && k < Max(e, off + |s|)
    requires Extent(img, i, Max(e, off + |s|))
    ensures Slot(img, i, off / BSIZE) < |img.blocks| && InBounds(img)
    ensures var a := Slot(img, i, off / BSIZE);
      var img2 := img.(blocks := img.blocks[a := Patch(img.blocks[a], off % BSIZE, s)]);
      && Shape(img2) && InBounds(img2)
      && k < |Splice(Data(img, i, e), off, s)| && Byte(img2, i, k) == Splice(Data(img, i, e), off, s)[k]
  {
    OwnedInBounds(sb, img, owner, {});
    hide Owned, Pointer;
    var bn := off / BSIZE;
    var a := Slot(img, i, bn);
    assert a != 0 && Slot(img, i, k / BSIZE) != 0;
    WrittenByte(sb, img, owner, i, bn, Patch(img.blocks[a], off % BSIZE, s), i, k);
    SpliceLength(Data(img, i, e), off, s);
    SpliceAt(Data(img, i, e), off, s, k);
    if k / BSIZE == bn { PatchAt(img.blocks[a], off, s, k); }
  }

  lemma PatchAt(x: Block, off: nat, s: seq<byte>, k: nat)
    requires off % BSIZE + |s| <= BSIZE && 0 < |s| && k / BSIZE == off / BSIZE
    ensures Patch(x, off % BSIZE, s)[k % BSIZE] == if off <= k < off + |s| then s[k - off] else x[k % BSIZE]
  {
  }

  // ---- what a write logs ----

  /** The bitmap blocks of the blocks allocated. */
  function Marks(sb: Super, owner0: map<nat, Place>, owner: map<nat, Place>): set<nat> {
    set b | b in owner && b !in owner0 :: BitmapBlock(sb, b)
  }

  /** One past the last block that n bytes at off touch. */
  function Last(off: nat, n: nat): nat { if n == 0 then off / BSIZE else (off + n - 1) / BSIZE + 1 }

  /** How many blocks n bytes at off touch. */
  function Span(off: nat, n: nat): nat { Last(off, n) - off / BSIZE }

  /** The data blocks of file i that n bytes at off touch. */
  ghost function Touched(img: Image, i: nat, off: nat, n: nat): set<nat>
    requires Shape(img) && i < |img.inodes| && off + n <= MAXFILE * BSIZE
  {
    set bn: nat | off / BSIZE <= bn < Last(off, n) :: Slot(img, i, bn) as nat
  }

  /** Growing from e to e2 bytes adds an entry to the indirect block. */
  predicate NewEntry(e: nat, e2: nat) {
    (e + BSIZE - 1) / BSIZE < (e2 + BSIZE - 1) / BSIZE && NDIRECT < (e2 + BSIZE - 1) / BSIZE
  }

  ghost function Indirects(img: Image, i: nat, e: nat, e2: nat): set<nat>
    requires Shape(img) && i < |img.inodes|
  {
    if NewEntry(e, e2) then {At(img, Place(i, INDIRECT)) as nat} else {}
  }

  /** Between l0 and l the blocks were logged of n bytes written at off, which took file i from e bytes to e2. */
  ghost predicate LoggedBy(sb: Super, l0: set<nat>, l: set<nat>, owner0: map<nat, Place>, owner: map<nat, Place>,
      img: Image, i: nat, off: nat, n: nat, e: nat, e2: nat)
  {
    && Shape(img) && i < |img.inodes| && off + n <= MAXFILE * BSIZE && owner0.Keys <= owner.Keys
    && l == l0 + Marks(sb, owner0, owner) + Touched(img, i, off, n) + Indirects(img, i, e, e2)
  }

  /** The blocks that file i has stay where they are. */
  ghost predicate SlotsKept(img: Image, img2: Image, i: nat)
    requires Shape(img) && Shape(img2) && i < |img.inodes| == |img2.inodes|
  {
    && (forall c: nat :: c < MAXFILE && Slot(img, i, c) != 0 ==> Slot(img2, i, c) == Slot(img, i, c))
    && (At(img, Place(i, INDIRECT)) != 0 ==> At(img2, Place(i, INDIRECT)) == At(img, Place(i, INDIRECT)))
  }

  lemma MarksMore(sb: Super, a: map<nat, Place>, b: map<nat, Place>, c: map<nat, Place>)
    requires a.Keys <= b.Keys <= c.Keys
    ensures Marks(sb, a, c) == Marks(sb, a, b) + Marks(sb, b, c)
  {
    forall x | x in Marks(sb, a, c) ensures x in Marks(sb, a, b) + Marks(sb, b, c) {
      var y :| y in c && y !in a && BitmapBlock(sb, y) == x;
      assert y in b || y !in b;
    }
  }

  lemma TouchedMore(img: Image, img2: Image, i: nat, off: nat, n: nat, m: nat, e: nat)
    requires Extent(img, i, e) && Shape(img2) && |img2.inodes| == |img.inodes| && SlotsKept(img, img2, i)
    requires off + n <= e && off + n + m <= MAXFILE * BSIZE
    ensures Touched(img2, i, off, n + m) == Touched(img, i, off, n) + Touched(img2, i, off + n, m)
  {
    hide At;
    forall bn: nat | off / BSIZE <= bn < Last(off, n) ensures Slot(img2, i, bn) == Slot(img, i, bn) {
      assert bn * BSIZE < off + n;
      assert Slot(img, i, bn) != 0;
    }
    hide Slot;
    forall bn: nat | off / BSIZE <= bn < Last(off, n + m)
      ensures Slot(img2, i, bn) as nat in Touched(img, i, off, n) + Touched(img2, i, off + n, m)
    {
      assert bn < Last(off, n) || (off + n) / BSIZE <= bn < Last(off + n, m);
    }
  }

  lemma LoggedMore(sb: Super, l0: set<nat>, l1: set<nat>, l2: set<nat>, owner0: map<nat, Place>,
      owner1: map<nat, Place>, owner2: map<nat, Place>, img1: Image, img2: Image, i: nat, off: nat, n: nat, m: nat,
      e: nat, e1: nat, e2: nat)
    requires LoggedBy(sb, l0, l1, owner0, owner1, img1, i, off, n, e, e1)
    requires LoggedBy(sb, l1, l2, owner1, owner2, img2, i, off + n, m, e1, e2)
    requires |img2.inodes| == |img1.inodes| && SlotsKept(img1, img2, i) && Extent(img1, i, e1)
    requires off + n <= e1 && e <= e1 <= e2
    ensures LoggedBy(sb, l0, l2, owner0, owner2, img2, i, off, n + m, e, e2)
  {
    MarksMore(sb, owner0, owner1, owner2);
    TouchedMore(img1, img2, i, off, n, m, e1);
    hide Marks, Touched, SlotOf;
    assert NewEntry(e, e2) <==> NewEntry(e, e1) || NewEntry(e1, e2);
    assert NewEntry(e, e1) ==> NDIRECT * BSIZE < e1;
  }

  /** Between l0 and l bmap logged what it allocated for block bn, and the indirect block it entered it in. */
  ghost predicate MappedLogged(sb: Super, l0: set<nat>, l: set<nat>, owner0: map<nat, Place>, owner: map<nat, Place>,
      img: Image, img2: Image, i: nat, bn: nat)
    requires Shape(img) && Shape(img2) && i < |img.inodes| == |img2.inodes| && bn < MAXFILE
  {
    && owner0.Keys <= owner.Keys
    && l == l0 + Marks(sb, owner0, owner) +
            (if Slot(img, i, bn) != 0 then {} else {Slot(img2, i, bn) as nat}) +
            (if Slot(img, i, bn) != 0 || bn < NDIRECT then {} else {At(img2, Place(i, INDIRECT)) as nat})
  }

  lemma MappedNone(sb: Super, l: set<nat>, owner: map<nat, Place>, img: Image, i: nat, bn: nat)
    requires Shape(img) && i < |img.inodes| && bn < MAXFILE && Slot(img, i, bn) != 0
    ensures MappedLogged(sb, l, l, owner, owner, img, img, i, bn)
  {
    MarksNone(sb, owner);
  }

  lemma MappedDirect(sb: Super, l: set<nat>, owner: map<nat, Place>, img: Image, img2: Image, i: nat, bn: nat, b: nat)
    requires Shape(img) && Shape(img2) && i < |img.inodes| == |img2.inodes| && bn < NDIRECT && b !in owner
    requires Slot(img, i, bn) == 0 && Slot(img2, i, bn) == b
    ensures MappedLogged(sb, l, l + {BitmapBlock(sb, b), b}, owner, owner[b := Place(i, bn)], img, img2, i, bn)
  {
    MarksOne(sb, owner, b, Place(i, bn));
  }

  lemma MarksNone(sb: Super, owner: map<nat, Place>)
    ensures Marks(sb, owner, owner) == {}
  {
  }

  lemma MarksOne(sb: Super, owner: map<nat, Place>, b: nat, p: Place)
    requires b !in owner
    ensures owner.Keys <= owner[b := p].Keys && Marks(sb, owner, owner[b := p]) == {BitmapBlock(sb, b)}
  {
    assert b in owner[b := p] && BitmapBlock(sb, b) in Marks(sb, owner, owner[b := p]);
  }

  /** bmap, then the data block itself: one round of writei. */
  lemma RoundLogged(sb: Super, l0: set<nat>, l: set<nat>, owner0: map<nat, Place>, owner: map<nat, Place>,
      img: Image, img1: Image, img2: Image, i: nat, off: nat, n: nat, e: nat)
    requires Extent(img, i, e) && Shape(img1) && Shape(img2) && |img1.inodes| == |img2.inodes| == |img.inodes|
    requires off <= e && 0 < n && off % BSIZE + n <= BSIZE && off + n <= MAXFILE * BSIZE
    requires Mapped(img, img1, owner0, i, off / BSIZE)
    requires MappedLogged(sb, l0, l, owner0, owner, img, img1, i, off / BSIZE)
    requires forall q :: In(img1, q) ==> At(img2, q) == At(img1, q)
    ensures SlotsKept(img, img2, i)
    ensures var l2, e2 := l + {Slot(img2, i, off / BSIZE) as nat}, Max(e, off + n);
      LoggedBy(sb, l0, l2, owner0, owner, img2, i, off, n, e, e2)
  {
    hide At, Marks;
    var bn := off / BSIZE;
    assert In(img1, Place(i, SlotOf(bn))) && In(img1, Place(i, INDIRECT));
    forall c: nat | c < MAXFILE && Slot(img, i, c) != 0 ensures Slot(img2, i, c) == Slot(img, i, c) {
      assert In(img, Place(i, SlotOf(c))) && In(img1, Place(i, SlotOf(c)));
    }
    assert Slot(img, i, bn) != 0 <==> bn * BSIZE < e;
    assert Last(off, n) == bn + 1;
    assert Touched(img2, i, off, n) == {Slot(img2, i, bn) as nat};
    EntryAdded(off, n, e);
  }

  lemma EntryAdded(off: nat, n: nat, e: nat)
    requires off <= e && 0 < n && off % BSIZE + n <= BSIZE
    ensures NewEntry(e, Max(e, off + n)) <==> e <= off / BSIZE * BSIZE && off / BSIZE >= NDIRECT
  {
    var bn := off / BSIZE;
    assert bn * BSIZE + off % BSIZE == off;
    if bn * BSIZE < e {
      assert off + n > e ==> (off + n + BSIZE - 1) / BSIZE == bn + 1 == (e + BSIZE - 1) / BSIZE;
    } else {
      assert (off + n + BSIZE - 1) / BSIZE == bn + 1 && (e + BSIZE - 1) / BSIZE == bn;
    }
  }

  lemma NoneLogged(sb: Super, l: set<nat>, owner: map<nat, Place>, img: Image, i: nat, off: nat, e: nat)
    requires Shape(img) && i < |img.inodes| && off <= MAXFILE * BSIZE
    ensures LoggedBy(sb, l, l, owner, owner, img, i, off, 0, e, e)
  {
  }

  /** No two of the blocks are the same. */
  lemma LoggedCount(sb: Super, l: set<nat>, owner0: map<nat, Place>, owner: map<nat, Place>, img: Image, i: nat,
      off: nat, n: nat, e: nat, e2: nat)
    requires Owned(sb, img, owner, {}) && LoggedBy(sb, {}, l, owner0, owner, img, i, off, n, e, e2)
    requires Extent(img, i, e2) && off + n <= e2
    ensures |l| == Span(off, n) + |Marks(sb, owner0, owner)| + if NewEntry(e, e2) then 1 else 0
  {
    var marks, data, ind := Marks(sb, owner0, owner), Touched(img, i, off, n), Indirects(img, i, e, e2);
    MarksLow(sb, img, owner0, owner);
    TouchedCount(sb, img, owner, i, off, n, e2);
    IndirectHigh(sb, img, owner, i, off, n, e, e2);
    hide Marks, Touched, Indirects, Owned, Extent;
    ThreeParts(marks, data, ind);
  }

  lemma ThreeParts(a: set<nat>, b: set<nat>, c: set<nat>)
    requires a !! b && a !! c && b !! c
    ensures |{} + a + b + c| == |a| + |b| + |c|
  {
    assert {} + a + b + c == a + (b + c);
    assert a !! b + c;
    assert |b + c| == |b| + |c|;
  }

  lemma MarksLow(sb: Super, img: Image, owner0: map<nat, Place>, owner: map<nat, Place>)
    requires Owned(sb, img, owner, {})
    ensures forall x :: x in Marks(sb, owner0, owner) ==> x < sb.datastart
  {
    hide At, Used;
    forall b | b in owner ensures BitmapBlock(sb, b) < sb.datastart {
      BitmapLow(sb, img.blocks, b);
    }
  }

  lemma SlotOwned(sb: Super, img: Image, owner: map<nat, Place>, i: nat, bn: nat)
    requires Owned(sb, img, owner, {}) && i < |img.inodes| && bn < MAXFILE && Slot(img, i, bn) != 0
    ensures var x := Slot(img, i, bn); x in owner && owner[x] == Place(i, SlotOf(bn)) && sb.datastart <= x
  {
    hide Owned;
    PlaceOwned(sb, img, owner, {}, Place(i, SlotOf(bn)));
  }

  /** A block that the write touches is mapped, and owned by its slot. */
  lemma TouchedOwned(sb: Super, img: Image, owner: map<nat, Place>, i: nat, off: nat, n: nat, e: nat, bn: nat)
    requires Owned(sb, img, owner, {}) && Extent(img, i, e) && off + n <= e && off / BSIZE <= bn < Last(off, n)
    ensures bn < MAXFILE && Slot(img, i, bn) != 0 && var x := Slot(img, i, bn);
      x in owner && owner[x] == Place(i, SlotOf(bn)) && sb.datastart <= x
  {
    hide At, Owned;
    assert bn * BSIZE < e;
    SlotOwned(sb, img, owner, i, bn);
  }

  lemma TouchedCount(sb: Super, img: Image, owner: map<nat, Place>, i: nat, off: nat, n: nat, e: nat)
    requires Owned(sb, img, owner, {}) && Extent(img, i, e) && off + n <= e
    ensures |Touched(img, i, off, n)| == Span(off, n)
    ensures forall x :: x in Touched(img, i, off, n) ==> x in owner && sb.datastart <= x && owner[x].slot != INDIRECT
  {
    hide At, Owned, Slot;
    var lo, hi := off / BSIZE, Last(off, n);
    forall bn: nat | lo <= bn < hi
      ensures bn < MAXFILE && Slot(img, i, bn) != 0 && var x := Slot(img, i, bn);
        x in owner && owner[x] == Place(i, SlotOf(bn)) && sb.datastart <= x
    {
      TouchedOwned(sb, img, owner, i, off, n, e, bn);
    }
    hide Extent, Last;
    var s := seq(hi - lo, k requires 0 <= k < hi - lo => Slot(img, i, lo + k) as nat);
    forall j, k | 0 <= j < k < |s| ensures s[j] != s[k] {
      assert owner[s[j]] == Place(i, SlotOf(lo + j)) && owner[s[k]] == Place(i, SlotOf(lo + k));
    }
    Sets.DistinctCount(s);
    assert forall bn: nat :: lo <= bn < hi ==> s[bn - lo] == Slot(img, i, bn);
    assert Touched(img, i, off, n) == Sets.AsSet(s);
  }

  lemma IndirectHigh(sb: Super, img: Image, owner: map<nat, Place>, i: nat, off: nat, n: nat, e: nat, e2: nat)
    requires Owned(sb, img, owner, {}) && Extent(img, i, e2)
    ensures |Indirects(img, i, e, e2)| == if NewEntry(e, e2) then 1 else 0
    ensures forall x :: x in Indirects(img, i, e, e2) ==> x in owner && sb.datastart <= x && owner[x].slot == INDIRECT
  {
    hide Pointer, Used;
    if NewEntry(e, e2) { PlaceOwned(sb, img, owner, {}, Place(i, INDIRECT)); }
  }
}
