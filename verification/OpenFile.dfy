/** file.c: reading and writing an inode through an open file. */
module OpenFile {
  import opened Bytes
  import opened Inodes
  import opened FileData
  import opened FileSystem
  import GroupCommit
  import Sets

  const CHUNK := 6656                // bytes per transaction: ((LOGSIZE - 1 - 1 - 2) / 2) * 512
  const LIMIT := 71680               // MAXFILE * BSIZE

  /** How many of n bytes at off get written, a chunk per transaction, until a chunk does not fit. */
  function Accepted(off: nat, n: nat): (k: nat)
    ensures k <= n && (k > 0 ==> off + k <= LIMIT)
    decreases n
  {
    if n == 0 then 0
    else
      var c := Min(n, CHUNK);
      if off + c > LIMIT then 0 else c + Accepted(off + c, n - c)
  }

  /** All of it exactly when the whole write fits; otherwise every full chunk that fits. */
  lemma {:induction false} AcceptedIs(off: nat, n: nat)
    ensures Accepted(off, n) == n <==> n == 0 || off + n <= LIMIT
    ensures off + n > LIMIT && off <= LIMIT ==> Accepted(off, n) == (LIMIT - off) / CHUNK * CHUNK
    decreases n
  {
    if n > 0 {
      var c := Min(n, CHUNK);
      if off + c <= LIMIT {
        AcceptedIs(off + c, n - c);
        Floor(LIMIT - off);
      } else if off <= LIMIT {
        Floor(LIMIT - off);
      }
    }
  }

  lemma Floor(x: nat)
    ensures x < CHUNK ==> x / CHUNK * CHUNK == 0
    ensures x >= CHUNK ==> x / CHUNK * CHUNK == (x - CHUNK) / CHUNK * CHUNK + CHUNK
  {
    if x >= CHUNK { assert x / CHUNK == (x - CHUNK) / CHUNK + 1; }
  }

  lemma AcceptedStep(off: nat, n: nat)
    requires n > 0
    ensures var c := Min(n, CHUNK); Accepted(off, n) == if off + c > LIMIT then 0 else c + Accepted(off + c, n - c)
  {
  }

  /** The file's bytes, the offset and the return value after a write. */
  datatype Outcome = Outcome(data: seq<byte>, off: nat, ret: int)

  /** One transaction for the whole buffer. */
  function Whole(d: seq<byte>, off: nat, src: seq<byte>): Outcome
    requires off <= |d|
  {
    if off + |src| > LIMIT then Outcome(d, off, -1) else Outcome(Splice(d, off, src), off + |src|, |src|)
  }

  /** filewrite */
  function Chunked(d: seq<byte>, off: nat, src: seq<byte>): Outcome
    requires off <= |d|
  {
    var k := Accepted(off, |src|);
    Outcome(Splice(d, off, src[..k]), off + k, if k == |src| then k else -1)
  }

  lemma ChunkedIs(d: seq<byte>, off: nat, src: seq<byte>, k: nat)
    requires off <= |d| && k == Accepted(off, |src|)
    ensures Chunked(d, off, src) == Outcome(Splice(d, off, src[..k]), off + k, if k == |src| then |src| else -1)
  {
  }

  /** Chunked writing gives the result of one unchunked write exactly when the buffer fits under the
      maximum file size or not even its first chunk does. Otherwise filewrite reports failure after
      having written, and advanced past, the chunks that fit. */
  lemma ChunkedIsWhole(d: seq<byte>, off: nat, src: seq<byte>)
    requires off <= |d| <= LIMIT
    ensures Chunked(d, off, src) == Whole(d, off, src) <==> off + |src| <= LIMIT || off + Min(|src|, CHUNK) > LIMIT
  {
    AcceptedIs(off, |src|);
    SpliceNothing(d, off);
    assert src[..0] == [] && src[..|src|] == src;
  }

  /** How many blocks n bytes written at off log, size being the file's: those they touch, the bitmap blocks of
      those allocated, the indirect block if it gets an entry, and the inode's block if the file grows. */
  ghost function Logs(sb: Super, owner0: map<nat, Place>, owner: map<nat, Place>, size: nat, off: nat, n: nat): nat {
    Span(off, n) + |Marks(sb, owner0, owner)| + (if NewEntry(size, Max(size, off + n)) then 1 else 0)
    + if off + n > size then 1 else 0
  }

  /** A full chunk touches 13 blocks, or 14 if it does not start at the beginning of one. */
  lemma FullChunk(off: nat)
    ensures Span(off, CHUNK) == if off % BSIZE == 0 then 13 else 14
  {
    assert (off + CHUNK - 1) / BSIZE == off / BSIZE + (off % BSIZE + CHUNK - 1) / BSIZE;
  }

  /** Writes of up to 3073 bytes are the ones that touch at most seven blocks wherever they start. */
  lemma SevenBlocks(n: nat)
    ensures n <= 3073 <==> forall off: nat :: Span(off, n) <= 7
  {
    if n <= 3073 {
      forall off: nat ensures Span(off, n) <= 7 {
        if n > 0 { assert (off + n - 1) / BSIZE == off / BSIZE + (off % BSIZE + n - 1) / BSIZE; }
      }
    } else {
      assert (511 + n - 1) / BSIZE >= 7;
      assert Span(511, n) >= 8;
    }
  }

  /** So with one bitmap block no write of up to 3073 bytes would log more than MAXOPBLOCKS. */
  lemma SafeChunk(sb: Super, img: Image, owner0: map<nat, Place>, owner: map<nat, Place>, size: nat, off: nat, n: nat)
    requires Owned(sb, img, owner, {}) && sb.size <= BPB && n <= 3073
    ensures Logs(sb, owner0, owner, size, off, n) <= GroupCommit.MAXOPBLOCKS
  {
    hide Span;
    SevenBlocks(n);
    assert forall b :: b in owner ==> BitmapBlock(sb, b) == sb.bmapstart;
    assert Marks(sb, owner0, owner) <= {sb.bmapstart};
    Sets.SubsetCount(Marks(sb, owner0, owner), {sb.bmapstart});
  }

  lemma SpliceNext(d: seq<byte>, off: nat, src: seq<byte>, i: nat, m: nat)
    requires off <= |d| && i + m <= |src|
    ensures var e := Splice(d, off, src[..i]);
      && off + i <= |e| == Max(|d|, off + i) && Splice(e, off + i, src[i..i + m]) == Splice(d, off, src[..i + m])
  {
    hide Splice;
    SpliceLength(d, off, src[..i]);
    SpliceConcat(d, off, src[..i], src[i..i + m]);
    assert src[..i + m] == src[..i] + src[i..i + m];
  }

  /** The first i bytes of src have been written at off into a file with the bytes d0; held blocks are paid for
      out of the spare ones. */
  ghost predicate Stored(d0: seq<byte>, off: nat, src: seq<byte>, i: nat, d: seq<byte>, size0: nat, size: nat,
      spare0: int, spare: int)
    requires off <= |d0| && i <= |src|
  {
    d == Splice(d0, off, src[..i]) && size == Max(size0, off + i) && spare == spare0 - (Held(size) - Held(size0))
  }

  lemma StoredNone(d: seq<byte>, off: nat, src: seq<byte>, size: nat, spare: int)
    requires off <= |d| && off <= size
    ensures Stored(d, off, src, 0, d, size, size, spare, spare)
  {
    assert src[..0] == [];
    SpliceNothing(d, off);
  }

  lemma StoredNext(d0: seq<byte>, off: nat, src: seq<byte>, i: nat, n: nat, d: seq<byte>, size0: nat, size: nat,
      spare0: int, spare: int)
    requires off <= |d0| && i + n <= |src| && Stored(d0, off, src, i, d, size0, size, spare0, spare)
    ensures off + i <= |d|
    ensures var size2 := Max(size, off + i + n);
      Stored(d0, off, src, i + n, Splice(d, off + i, src[i..i + n]), size0, size2, spare0,
        spare - (Held(size2) - Held(size)))
  {
    hide Splice, Held;
    SpliceNext(d0, off, src, i, n);
  }

  lemma ExtentBound(img: Image, i: nat, e: nat)
    requires Extent(img, i, e)
    ensures e <= LIMIT
  {
  }

  class File {
    const fs: Fs
    const ip: nat
    const readable: bool
    const writable: bool
    var off: uint

    constructor (disk: Fs, inum: nat, r: bool, w: bool)
      ensures fs == disk && ip == inum && readable == r && writable == w && off == 0
    {
      fs, ip, readable, writable, off := disk, inum, r, w, 0;
    }

    /** fileread */
    method Read(n: uint) returns (r: int, dst: seq<byte>)
      requires fs.Valid() && ip < |fs.mem|
      modifies this`off, fs
      ensures fs.Valid() && fs.mem == old(fs.mem) && fs.blocks == old(fs.blocks)
      ensures r == -1 <==> !readable || old(off) > fs.mem[ip].size || old(off) + n >= UINT_MOD
      ensures r == -1 ==> off == old(off) && dst == []
      ensures r != -1 ==> r == |dst| && off == old(off) + r &&
                          dst == fs.Contents(ip)[old(off)..Min(old(off) + n, fs.mem[ip].size)]
    {
      hide Owned, Extent, Data, Shape, InBounds, Layout;
      ExtentBound(fs.Img(), ip, fs.mem[ip].size);
      if !readable {
        return -1, [];
      }
      var ok;
      ok, r, dst := fs.Readi(ip, off, n);
      if r > 0 {
        off := off + r;
      }
    }

    /** One transaction of filewrite. begin_op has reserved space for MAXOPBLOCKS blocks: a full chunk always
        logs more. */
    method Transact(s: seq<byte>) returns (ok: bool, r: int)
      requires fs.Valid() && ip < |fs.mem| && 0 < |s| <= CHUNK
      modifies this`off, fs
      ensures ok ==> fs.Valid() && ip < |fs.mem| && fs.mem[ip].size <= LIMIT && OthersKept(old(fs.Img()), fs.Img(), ip)
      ensures var size := old(fs.mem)[ip].size; var end := old(off) + |s|;
        if old(off) > size || end > LIMIT then
          && ok && r == -1 && off == old(off) && fs.mem == old(fs.mem) && fs.blocks == old(fs.blocks)
          && fs.Contents(ip) == old(fs.Contents(ip)) && fs.Spare() == old(fs.Spare())
        else
          && (ok <==> Held(Max(size, end)) - Held(size) <= old(fs.Spare()))
          && (ok ==> r == |s| && off == end && fs.mem[ip].size == Max(size, end)
                     && fs.Contents(ip) == Splice(old(fs.Contents(ip)), old(off), s)
                     && fs.Spare() == old(fs.Spare()) - (Held(Max(size, end)) - Held(size)))
          && (!ok ==> off == old(off))
          && (ok ==> |fs.logged| + |fs.updated| == Logs(fs.sb, old(fs.owner), fs.owner, size, old(off), |s|))
          && (ok && |s| == CHUNK ==> |fs.logged| > GroupCommit.MAXOPBLOCKS)
      ensures !ok ==> FullBelow(fs.sb, fs.blocks, fs.sb.size)
    {
      hide Owned, Extent, Data, Splice, OthersKept, InBounds, Layout, Shape, FullBelow, Held, FreeBlocks;
      hide Marks, Span, NewEntry;
      ExtentBound(fs.Img(), ip, fs.mem[ip].size);
      FullChunk(off);
      fs.logged, fs.updated := {}, {};       // begin_op
      ok, r := fs.Writei(ip, s, off);
      if !ok {
        return;
      }
      ExtentBound(fs.Img(), ip, fs.mem[ip].size);
      if r > 0 {
        off := off + r;
      }
    }

    /** filewrite on an inode; not ok is a panic. */
    method Write(src: seq<byte>) returns (ok: bool, r: int)
      requires fs.Valid() && ip < |fs.mem| && |src| < 0x8000_0000
      modifies this`off, fs
      ensures ok ==> fs.Valid() && ip < |fs.mem|
      ensures !writable || old(off) > old(fs.mem)[ip].size ==>
        && ok && off == old(off) && fs.mem == old(fs.mem) && fs.blocks == old(fs.blocks)
        && r == if writable && src == [] then 0 else -1
      ensures ok && writable && old(off) <= old(fs.mem)[ip].size ==>
        && Outcome(fs.Contents(ip), off, r) == Chunked(old(fs.Contents(ip)), old(off), src)
        && OthersKept(old(fs.Img()), fs.Img(), ip) && off <= fs.mem[ip].size
        && off == old(off) + Accepted(old(off), |src|)
        && r == if Accepted(old(off), |src|) == |src| then |src| else -1
      ensures writable && old(off) <= old(fs.mem)[ip].size ==>
        var size := old(fs.mem)[ip].size;
        (ok <==> Held(Max(size, old(off) + Accepted(old(off), |src|))) - Held(size) <= old(fs.Spare()))
      ensures !ok ==> FullBelow(fs.sb, fs.blocks, fs.sb.size)
    {
      hide Fs.Contents, Fs.Spare, Owned, Extent, Splice, Accepted, OthersKept, InBounds, Layout, Shape, FullBelow, Held;
      hide Logs, Chunked;
      ExtentBound(fs.Img(), ip, fs.mem[ip].size);
      if !writable {
        return true, -1;
      }
      ghost var img0, d0, off0 := fs.Img(), fs.Contents(ip), off;
      OwnedInBounds(fs.sb, img0, fs.owner, {});
      SelfKept(img0, ip);
      ghost var size0, spare0, past := fs.mem[ip].size, fs.Spare(), off > fs.mem[ip].size;
      if !past { StoredNone(d0, off, src, size0, spare0); }
      var i := 0;
      while i < |src|
        invariant 0 <= i <= |src| && off == off0 + i && fs.Valid() && ip < |fs.mem| && fs.mem[ip].size <= LIMIT
        invariant past ==> i == 0 && fs.mem == old(fs.mem) && fs.blocks == old(fs.blocks)
        invariant !past ==>
          && Stored(d0, off0, src, i, fs.Contents(ip), size0, fs.mem[ip].size, spare0, fs.Spare())
          && OthersKept(img0, fs.Img(), ip)
        invariant Accepted(off0, |src|) == i + Accepted(off, |src| - i)
      {
        var n1 := if |src| - i > CHUNK then CHUNK else |src| - i;
        ghost var img1 := fs.Img();
        AcceptedStep(off, |src| - i);
        if !past {
          StoredNext(d0, off0, src, i, n1, fs.Contents(ip), size0, fs.mem[ip].size, spare0, fs.Spare());
        }
        var rr;
        ok, rr := Transact(src[i..i + n1]);
        if !ok {
          HeldMore(Max(size0, off + n1), Max(size0, off0 + Accepted(off0, |src|)));
          return ok, 0;
        }
        OthersTransitive(img0, img1, fs.Img(), ip);
        if rr < 0 {
          break;
        }
        assert rr == n1;                       // "short filewrite" cannot happen
        i := i + rr;
      }
      if !past { ChunkedIs(d0, off0, src, i); }
      return true, if i == |src| then |src| else -1;
    }
  }
}
