/** The buffer cache: NBUF buffers on a doubly linked ring in most-recently-used order, over a
    synchronous disk. Each method is one critical section under bcache.lock. */
module BufferCache {
  import opened Bytes
  import opened RedoLog
  import opened Sets

  const NBUF := 30
  const HEAD := 30                 // index of bcache.head
  const ROOTDEV := 1
  const NODEV := UINT_MOD - 1      // (uint)-1

  datatype Buf = Buf(busy: bool, valid: bool, dirty: bool, dev: uint, blockno: uint,
                     prev: nat, next: nat, data: Block)

  /** The outcome of bget. Sleep: the block is cached but busy, the caller sleeps and retries.
      NoBuffers: the kernel panics. */
  datatype Got = Cached(b: nat) | Recycled(b: nat) | Sleep(b: nat) | NoBuffers

  predicate Is(x: Buf, dev: uint, blockno: uint) {
    x.dev == dev && x.blockno == blockno
  }

  // ---- the ring ----

  /** The i-th stop on a walk from the head along next, through ring, back to the head. */
  function At(ring: seq<nat>, i: nat): nat
    requires i <= |ring| + 1
  {
    if i == 0 || i == |ring| + 1 then HEAD else ring[i - 1]
  }

  ghost predicate Links(buf: seq<Buf>, ring: seq<nat>) {
    && |buf| == NBUF + 1
    && (forall i :: 0 <= i < |ring| ==> ring[i] < NBUF)
    && (forall i, j :: 0 <= i < j < |ring| ==> ring[i] != ring[j])
    && (forall i :: 0 <= i <= |ring| ==> Joined(buf, ring, i))
  }

  /** Stops i and i + 1 point at each other. */
  ghost predicate Joined(buf: seq<Buf>, ring: seq<nat>, i: nat)
    requires i <= |ring| && |buf| == NBUF + 1 && forall k :: 0 <= k < |ring| ==> ring[k] < NBUF
  {
    buf[At(ring, i)].next == At(ring, i + 1) && buf[At(ring, i + 1)].prev == At(ring, i)
  }

  function Without(ring: seq<nat>, k: nat): seq<nat>
    requires k < |ring|
  {
    ring[..k] + ring[k + 1..]
  }

  /** The two differ in prev and next fields only. */
  ghost predicate Relinked(buf: seq<Buf>, r: seq<Buf>) {
    |r| == |buf| && forall i :: 0 <= i < |buf| ==> r[i] == buf[i].(prev := r[i].prev, next := r[i].next)
  }

  /** b taken out of the ring: its two neighbours now point at each other. */
  function Unlink(buf: seq<Buf>, b: nat): (r: seq<Buf>)
    requires b < |buf| && buf[b].next < |buf| && buf[b].prev < |buf|
    ensures Relinked(buf, r)
  {
    var s := buf[buf[b].next := buf[buf[b].next].(prev := buf[b].prev)];
    s[s[b].prev := s[s[b].prev].(next := s[b].next)]
  }

  /** b put into the ring between head and the first buffer. */
  function PushFront(buf: seq<Buf>, b: nat): (r: seq<Buf>)
    requires b < HEAD < |buf| && buf[HEAD].next < |buf|
    ensures Relinked(buf, r)
  {
    var s := buf[b := buf[b].(next := buf[HEAD].next, prev := HEAD)];
    var s := s[s[HEAD].next := s[s[HEAD].next].(prev := b)];
    s[HEAD := s[HEAD].(next := b)]
  }

  lemma UnlinkEffect(buf: seq<Buf>, b: nat, p: nat, n: nat)
    requires b < |buf| && p < |buf| && n < |buf| && b != p && b != n && buf[b].next == n && buf[b].prev == p
    ensures var s := Unlink(buf, b);
      && s[p].next == n && s[n].prev == p
      && (forall i :: 0 <= i < |buf| && i != p ==> s[i].next == buf[i].next)
      && (forall i :: 0 <= i < |buf| && i != n ==> s[i].prev == buf[i].prev)
  {
  }

  lemma AtDistinct(buf: seq<Buf>, ring: seq<nat>, i: nat, j: nat)
    requires Links(buf, ring) && i < j <= |ring| + 1 && (i > 0 || j <= |ring|)
    ensures At(ring, i) != At(ring, j)
  {
  }

  lemma UnlinkJoined(buf: seq<Buf>, ring: seq<nat>, k: nat, i: nat)
    requires Links(buf, ring) && k < |ring| && i < |ring|
    ensures buf[ring[k]].next < |buf| && buf[ring[k]].prev < |buf|
    ensures Joined(Unlink(buf, ring[k]), Without(ring, k), i)
  {
    hide Unlink, Links;
    var b, p, n := At(ring, k + 1), At(ring, k), At(ring, k + 2);
    var r := Without(ring, k);
    LinksAt(buf, ring, k);
    LinksAt(buf, ring, k + 1);
    AtDistinct(buf, ring, k, k + 1);
    AtDistinct(buf, ring, k + 1, k + 2);
    UnlinkEffect(buf, b, p, n);
    assert At(r, i) == At(ring, if i <= k then i else i + 1);
    assert At(r, i + 1) == At(ring, if i + 1 <= k then i + 1 else i + 2);
    if i < k {
      LinksAt(buf, ring, i);
      AtDistinct(buf, ring, i, k);
      AtDistinct(buf, ring, i + 1, k + 2);
    } else if i > k {
      LinksAt(buf, ring, i + 1);
      AtDistinct(buf, ring, k, i + 1);
      AtDistinct(buf, ring, k + 2, i + 2);
    }
  }

  lemma LinksAt(buf: seq<Buf>, ring: seq<nat>, i: nat)
    requires Links(buf, ring) && i <= |ring|
    ensures |buf| == NBUF + 1 && (forall k :: 0 <= k < |ring| ==> ring[k] < NBUF) && Joined(buf, ring, i)
  {
  }

  lemma UnlinkLinks(buf: seq<Buf>, ring: seq<nat>, k: nat)
    requires Links(buf, ring) && k < |ring|
    ensures buf[ring[k]].next < |buf| && buf[ring[k]].prev < |buf|
    ensures Links(Unlink(buf, ring[k]), Without(ring, k))
  {
    UnlinkJoined(buf, ring, k, 0);
    forall i | 0 <= i < |ring| ensures Joined(Unlink(buf, ring[k]), Without(ring, k), i) {
      UnlinkJoined(buf, ring, k, i);
    }
  }

  lemma PushLinks(buf: seq<Buf>, ring: seq<nat>, b: nat)
    requires Links(buf, ring) && b < NBUF && b !in ring
    ensures buf[HEAD].next < |buf|
    ensures Links(PushFront(buf, b), [b] + ring)
  {
    assert Joined(buf, ring, 0);
    var r := [b] + ring;
    forall i | 0 <= i <= |r|
      ensures Joined(PushFront(buf, b), r, i)
    {
      if i > 0 {
        assert At(r, i + 1) == At(ring, i);
        assert Joined(buf, ring, i - 1);
        if i > 1 { assert At(r, i) == At(ring, i - 1); }
      }
    }
  }

  /** brelse's list surgery: a permutation with b first; only links change. */
  lemma MoveToFront(buf: seq<Buf>, ring: seq<nat>, k: nat)
    requires Links(buf, ring) && k < |ring|
    ensures var b := ring[k];
      && buf[b].next < |buf| && buf[b].prev < |buf| && Unlink(buf, b)[HEAD].next < |buf|
      && Links(PushFront(Unlink(buf, b), b), [b] + Without(ring, k))
  {
    UnlinkLinks(buf, ring, k);
    PushLinks(Unlink(buf, ring[k]), Without(ring, k), ring[k]);
  }

  lemma FrontMembers(ring: seq<nat>, k: nat)
    requires k < |ring|
    ensures forall b :: b in [ring[k]] + Without(ring, k) <==> b in ring
  {
    assert ring == ring[..k] + [ring[k]] + ring[k + 1..];
  }

  // ---- cache contents ----

  ghost predicate Unique(buf: seq<Buf>)
    requires |buf| == NBUF + 1
  {
    forall i, j :: 0 <= i < NBUF && 0 <= j < NBUF && buf[i].dev != NODEV && Is(buf[j], buf[i].dev, buf[i].blockno) ==>
      i == j
  }

  ghost predicate Coherent(buf: seq<Buf>, disk: Disk)
    requires |buf| == NBUF + 1
  {
    forall i :: 0 <= i < NBUF ==>
      && (buf[i].valid ==> buf[i].dev == ROOTDEV && buf[i].blockno < |disk|)
      && (buf[i].dirty ==> buf[i].valid)
      && (buf[i].valid && !buf[i].dirty && !buf[i].busy ==> buf[i].data == disk[buf[i].blockno])
  }

  /** The bytes of block b as every reader sees them. */
  ghost function View(buf: seq<Buf>, disk: Disk, b: nat): Block
    requires |buf| == NBUF + 1 && b < |disk|
  {
    if exists i :: 0 <= i < NBUF && buf[i].valid && buf[i].blockno == b
    then var i :| 0 <= i < NBUF && buf[i].valid && buf[i].blockno == b; buf[i].data
    else disk[b]
  }

  ghost function Views(buf: seq<Buf>, disk: Disk): (v: Disk)
    requires |buf| == NBUF + 1
    ensures |v| == |disk|
  {
    seq(|disk|, b requires 0 <= b < |disk| => View(buf, disk, b))
  }

  ghost function PinnedIn(buf: seq<Buf>): set<uint>
    requires |buf| == NBUF + 1
  {
    set i | 0 <= i < NBUF && buf[i].dirty :: buf[i].blockno
  }

  lemma ViewCached(buf: seq<Buf>, disk: Disk, i: nat)
    requires |buf| == NBUF + 1 && Unique(buf) && Coherent(buf, disk) && i < NBUF && buf[i].valid
    ensures View(buf, disk, buf[i].blockno) == buf[i].data
  {
    var j :| 0 <= j < NBUF && buf[j].valid && buf[j].blockno == buf[i].blockno &&
      View(buf, disk, buf[i].blockno) == buf[j].data;
    assert Is(buf[j], buf[i].dev, buf[i].blockno);
  }

  /** Two caches agree on block b when they hold it in the same buffer with the same bytes, or
      neither holds it and the disks agree. */
  lemma ViewSame(buf: seq<Buf>, disk: Disk, buf': seq<Buf>, disk': Disk, b: nat)
    requires |buf| == NBUF + 1 && Unique(buf) && Coherent(buf, disk)
    requires |buf'| == NBUF + 1 && Unique(buf') && Coherent(buf', disk')
    requires b < |disk| == |disk'|
    requires forall i :: 0 <= i < NBUF ==>
      (buf[i].valid && buf[i].blockno == b <==> buf'[i].valid && buf'[i].blockno == b) &&
      (buf[i].valid && buf[i].blockno == b ==> buf'[i].data == buf[i].data)
    requires disk[b] == disk'[b]
    ensures View(buf', disk', b) == View(buf, disk, b)
  {
    if i :| 0 <= i < NBUF && buf[i].valid && buf[i].blockno == b {
      ViewCached(buf, disk, i);
      ViewCached(buf', disk', i);
    }
  }

  lemma RecycleUnique(buf: seq<Buf>, i: nat, x: Buf)
    requires |buf| == NBUF + 1 && Unique(buf) && i < NBUF && forall j :: 0 <= j < NBUF ==> !Is(buf[j], x.dev, x.blockno)
    ensures Unique(buf[i := x])
  {
    var buf' := buf[i := x];
    forall j, k | 0 <= j < NBUF && 0 <= k < NBUF && buf'[j].dev != NODEV && Is(buf'[k], buf'[j].dev, buf'[j].blockno)
      ensures j == k
    {
      assert j != i && k != i ==> Is(buf[k], buf[j].dev, buf[j].blockno);
      assert Is(buf[k], x.dev, x.blockno) == Is(buf[j], x.dev, x.blockno) == false;
    }
  }

  /** Dropping a clean buffer, or one that was never read, changes nothing a reader can see. */
  lemma RecycleView(buf: seq<Buf>, disk: Disk, i: nat, x: Buf)
    requires |buf| == NBUF + 1 && Unique(buf) && Coherent(buf, disk)
    requires i < NBUF && !buf[i].busy && !buf[i].dirty && !x.valid && !x.dirty && x.busy
    requires Unique(buf[i := x])
    ensures Coherent(buf[i := x], disk) && Views(buf[i := x], disk) == Views(buf, disk)
    ensures PinnedIn(buf[i := x]) == PinnedIn(buf)
  {
    var buf' := buf[i := x];
    assert Coherent(buf', disk);
    forall b | 0 <= b < |disk| ensures View(buf', disk, b) == View(buf, disk, b) {
      if buf[i].valid && buf[i].blockno == b {
        ViewCached(buf, disk, i);
        forall j | 0 <= j < NBUF && j != i && buf[j].valid ensures buf[j].blockno != b {
          assert Is(buf[j], buf[i].dev, buf[i].blockno) == (buf[j].blockno == b);
        }
      } else {
        ViewSame(buf, disk, buf', disk, b);
      }
    }
    assert forall j :: 0 <= j < NBUF ==> buf'[j].dirty == buf[j].dirty && (buf[j].dirty ==> buf'[j] == buf[j]);
    assert forall c :: c in PinnedIn(buf) ==> c in PinnedIn(buf');
  }

  lemma {:induction false} DirtyCount(buf: seq<Buf>, disk: Disk, idx: set<nat>)
    requires |buf| == NBUF + 1 && Unique(buf) && Coherent(buf, disk)
    requires forall i :: i in idx ==> i < NBUF && buf[i].dirty
    ensures |set i | i in idx :: buf[i].blockno| == |idx|
    decreases |idx|
  {
    if idx != {} {
      var k :| k in idx;
      var rest := idx - {k};
      DirtyCount(buf, disk, rest);
      var small := set i | i in rest :: buf[i].blockno;
      assert buf[k].blockno !in small by {
        forall i | i in rest ensures buf[i].blockno != buf[k].blockno {
          assert Is(buf[i], buf[k].dev, buf[k].blockno) == (buf[i].blockno == buf[k].blockno);
        }
      }
      assert (set i | i in idx :: buf[i].blockno) == small + {buf[k].blockno};
    }
  }

  /** With every buffer except those in skip dirty, at least NBUF - |skip| blocks are pinned. */
  lemma PinnedCount(buf: seq<Buf>, disk: Disk, skip: set<nat>)
    requires |buf| == NBUF + 1 && Unique(buf) && Coherent(buf, disk)
    requires forall i :: 0 <= i < NBUF && i !in skip ==> buf[i].dirty
    requires forall i :: i in skip ==> i < NBUF
    ensures |PinnedIn(buf)| >= NBUF - |skip|
  {
    hide Unique, Coherent, Indices;
    var idx := Indices(NBUF) - skip;
    assert |idx| == NBUF - |skip|;
    DirtyCount(buf, disk, idx);
    var all := set i | 0 <= i < NBUF && buf[i].dirty;
    DirtyCount(buf, disk, all);
    assert (set i | i in all :: buf[i].blockno) == PinnedIn(buf);
    assert idx <= all;
    SubsetCount(idx, all);
  }

  /** Links only depends on the prev and next fields. */
  lemma LinksData(buf: seq<Buf>, buf': seq<Buf>, ring: seq<nat>)
    requires Links(buf, ring) && |buf'| == |buf|
    requires forall i :: 0 <= i < |buf| ==> buf'[i].prev == buf[i].prev && buf'[i].next == buf[i].next
    ensures Links(buf', ring)
  {
    forall i | 0 <= i <= |ring| ensures Joined(buf', ring, i) {
      assert Joined(buf, ring, i);
    }
  }

  lemma BusyView(buf: seq<Buf>, disk: Disk, b: nat)
    requires |buf| == NBUF + 1 && Unique(buf) && Coherent(buf, disk) && b < NBUF
    ensures var buf' := buf[b := buf[b].(busy := true)];
      && Unique(buf') && Coherent(buf', disk) && Views(buf', disk) == Views(buf, disk)
      && PinnedIn(buf') == PinnedIn(buf)
  {
    RelinkView(buf, buf[b := buf[b].(busy := true)], disk, b);
  }

  /** Changing links or the busy flag of b changes nothing a reader can see. */
  lemma RelinkView(buf: seq<Buf>, buf': seq<Buf>, disk: Disk, b: nat)
    requires |buf| == NBUF + 1 && Unique(buf) && Coherent(buf, disk) && |buf'| == |buf| && b < NBUF
    requires forall i :: 0 <= i < NBUF ==>
      buf'[i] == buf[i].(prev := buf'[i].prev, next := buf'[i].next, busy := buf'[i].busy)
    requires forall i :: 0 <= i < NBUF && i != b ==> buf'[i].busy == buf[i].busy
    requires buf'[b].busy || (buf[b].valid && !buf[b].dirty ==> buf[b].data == disk[buf[b].blockno])
    ensures Unique(buf') && Coherent(buf', disk)
    ensures Views(buf', disk) == Views(buf, disk) && PinnedIn(buf') == PinnedIn(buf)
  {
    assert Coherent(buf', disk);
    assert Unique(buf') by {
      forall i, j | 0 <= i < NBUF && 0 <= j < NBUF && buf'[i].dev != NODEV && Is(buf'[j], buf'[i].dev, buf'[i].blockno)
        ensures i == j
      {
        assert Is(buf[j], buf[i].dev, buf[i].blockno);
      }
    }
    forall c | 0 <= c < |disk| ensures View(buf', disk, c) == View(buf, disk, c) {
      ViewSame(buf, disk, buf', disk, c);
    }
    assert forall i :: 0 <= i < NBUF ==> buf'[i].dirty == buf[i].dirty && buf'[i].blockno == buf[i].blockno;
    assert forall c :: c in PinnedIn(buf) <==> c in PinnedIn(buf');
  }

  /** Reading the block into a busy buffer that was never read. */
  lemma FillView(buf: seq<Buf>, disk: Disk, b: nat)
    requires |buf| == NBUF + 1 && Unique(buf) && Coherent(buf, disk) && b < NBUF
    requires buf[b].busy && !buf[b].valid && buf[b].dev == ROOTDEV && buf[b].blockno < |disk|
    ensures var buf' := buf[b := buf[b].(data := disk[buf[b].blockno], valid := true)];
      && Unique(buf') && Coherent(buf', disk) && Views(buf', disk) == Views(buf, disk)
      && PinnedIn(buf') == PinnedIn(buf)
  {
    var buf' := buf[b := buf[b].(data := disk[buf[b].blockno], valid := true)];
    assert Unique(buf') by {
      forall i, j | 0 <= i < NBUF && 0 <= j < NBUF && buf'[i].dev != NODEV && Is(buf'[j], buf'[i].dev, buf'[i].blockno)
        ensures i == j
      {
        assert Is(buf[j], buf[i].dev, buf[i].blockno);
      }
    }
    forall c | 0 <= c < |disk| ensures View(buf', disk, c) == View(buf, disk, c) {
      if c == buf[b].blockno {
        ViewCached(buf', disk, b);
        forall j | 0 <= j < NBUF && buf[j].valid ensures buf[j].blockno != c {
          assert Is(buf[j], buf[b].dev, buf[b].blockno) == (buf[j].blockno == c);
        }
      } else {
        ViewSame(buf, disk, buf', disk, c);
      }
    }
    assert forall i :: 0 <= i < NBUF ==> buf'[i].dirty == buf[i].dirty && buf'[i].blockno == buf[i].blockno;
    assert forall c :: c in PinnedIn(buf) <==> c in PinnedIn(buf');
  }

  /** Changing the data or the dirty flag of a busy, valid buffer, with or without writing it. */
  lemma PokeView(buf: seq<Buf>, disk: Disk, b: nat, x: Buf, disk': Disk)
    requires |buf| == NBUF + 1 && Unique(buf) && Coherent(buf, disk) && b < NBUF && buf[b].busy && buf[b].valid
    requires x == buf[b].(data := x.data, dirty := x.dirty)
    requires disk' == disk || disk' == disk[buf[b].blockno := x.data]
    ensures var buf' := buf[b := x];
      && Unique(buf') && Coherent(buf', disk')
      && Views(buf', disk') == Views(buf, disk)[x.blockno := x.data]
      && PinnedIn(buf') == if x.dirty then PinnedIn(buf) + {x.blockno} else PinnedIn(buf) - {x.blockno}
  {
    var buf' := buf[b := x];
    assert Unique(buf') by {
      forall i, j | 0 <= i < NBUF && 0 <= j < NBUF && buf'[i].dev != NODEV && Is(buf'[j], buf'[i].dev, buf'[i].blockno)
        ensures i == j
      {
        assert Is(buf[j], buf[i].dev, buf[i].blockno);
      }
    }
    forall i | 0 <= i < NBUF && i != b && buf[i].valid ensures buf[i].blockno != x.blockno {
      assert Is(buf[i], buf[b].dev, buf[b].blockno) == (buf[i].blockno == x.blockno);
    }
    assert Coherent(buf', disk');
    forall c | 0 <= c < |disk| ensures View(buf', disk', c) == if c == x.blockno then x.data else View(buf, disk, c) {
      if c == x.blockno {
        ViewCached(buf', disk', b);
      } else {
        ViewSame(buf, disk, buf', disk', c);
      }
    }
    assert forall i :: 0 <= i < NBUF && i != b ==> buf'[i] == buf[i];
    assert buf'[b] == x;
    PinnedPoke(buf, b, x);
  }

  lemma PinnedPoke(buf: seq<Buf>, b: nat, x: Buf)
    requires |buf| == NBUF + 1 && b < NBUF && x.blockno == buf[b].blockno
    requires forall i :: 0 <= i < NBUF && i != b && buf[i].dirty ==> buf[i].blockno != x.blockno
    ensures PinnedIn(buf[b := x]) == if x.dirty then PinnedIn(buf) + {x.blockno} else PinnedIn(buf) - {x.blockno}
  {
    var buf' := buf[b := x];
    forall c | c in PinnedIn(buf) && c != x.blockno ensures c in PinnedIn(buf') {
      var i :| 0 <= i < NBUF && buf[i].dirty && buf[i].blockno == c;
      assert buf'[i] == buf[i];
    }
    assert x.dirty ==> buf'[b].dirty && x.blockno in PinnedIn(buf');
  }

  lemma PinnedAt(buf: seq<Buf>, disk: Disk, b: nat)
    requires |buf| == NBUF + 1 && Unique(buf) && Coherent(buf, disk) && b < NBUF && buf[b].valid
    ensures buf[b].dirty <==> buf[b].blockno in PinnedIn(buf)
  {
    if buf[b].blockno in PinnedIn(buf) {
      var i :| 0 <= i < NBUF && buf[i].dirty && buf[i].blockno == buf[b].blockno;
      assert Is(buf[i], buf[b].dev, buf[b].blockno);
    }
  }

  function Released(buf: seq<Buf>, b: nat): seq<Buf>
    requires b < HEAD < |buf| && buf[b].next < |buf| && buf[b].prev < |buf| && Unlink(buf, b)[HEAD].next < |buf|
  {
    var s := PushFront(Unlink(buf, b), b);
    s[b := s[b].(busy := false)]
  }

  lemma Release(buf: seq<Buf>, ring: seq<nat>, k: nat, disk: Disk)
    requires Links(buf, ring) && k < |ring| && Unique(buf) && Coherent(buf, disk)
    requires var x := buf[ring[k]]; x.valid && !x.dirty ==> x.data == disk[x.blockno]
    ensures var b := ring[k];
      && buf[b].next < |buf| && buf[b].prev < |buf| && Unlink(buf, b)[HEAD].next < |buf|
      && var r := Released(buf, b);
         && Links(r, [b] + Without(ring, k)) && Unique(r) && Coherent(r, disk)
         && Views(r, disk) == Views(buf, disk) && PinnedIn(r) == PinnedIn(buf)
         && forall i :: 0 <= i < NBUF ==>
              r[i] == buf[i].(prev := r[i].prev, next := r[i].next, busy := i != b && buf[i].busy)
  {
    MoveToFront(buf, ring, k);
    var b := ring[k];
    var s := PushFront(Unlink(buf, b), b);
    assert Relinked(buf, s);
    LinksData(s, Released(buf, b), [b] + Without(ring, k));
    RelinkView(buf, Released(buf, b), disk, b);
  }

  /** b is the first clean, free buffer from the back of the ring. */
  ghost predicate LeastRecent(buf: seq<Buf>, ring: seq<nat>, b: nat)
    requires |buf| == NBUF + 1 && Links(buf, ring)
  {
    exists k :: 0 <= k < |ring| && ring[k] == b
      && forall i :: k < i < |ring| ==> buf[ring[i]].busy || buf[ring[i]].dirty
  }

  class Cache {
    var disk: Disk
    var buf: seq<Buf>              // bcache.buf, and bcache.head at index HEAD
    ghost var ring: seq<nat>       // the buffers, most recently used first
    ghost var writes: seq<Write>   // every block written to disk, in order

    ghost predicate Valid()
      reads this
    {
      && |buf| == NBUF + 1 && |ring| == NBUF && Links(buf, ring)
      && (forall b :: 0 <= b < NBUF ==> b in ring)
      && Unique(buf) && Coherent(buf, disk)
      && |disk| <= NODEV
    }

    /** What bread returns for each block. */
    ghost function Contents(): (v: Disk)
      reads this
      requires |buf| == NBUF + 1
      ensures |v| == |disk|
    {
      Views(buf, disk)
    }

    /** Blocks held in the cache by log_write until they are installed. */
    ghost function Pinned(): set<uint>
      reads this
      requires |buf| == NBUF + 1
    {
      PinnedIn(buf)
    }

    ghost predicate Idle()
      reads this
      requires |buf| == NBUF + 1
    {
      forall i :: 0 <= i < NBUF ==> !buf[i].busy
    }

    /** binit */
    constructor (image: Disk)
      requires |image| <= NODEV
      ensures Valid() && Idle() && disk == image && Contents() == image && Pinned() == {} && writes == []
    {
      disk := image;
      writes := [];
      var bufs := seq(NBUF + 1, _ => Buf(false, false, false, 0, 0, HEAD, HEAD, ZeroBlock()));
      ghost var order: seq<nat> := [];
      for b := 0 to NBUF
        invariant Links(bufs, order) && |order| == b
        invariant forall i :: 0 <= i < NBUF ==> (i in order <==> i < b)
        invariant forall i :: 0 <= i < NBUF ==> !bufs[i].busy && !bufs[i].valid && !bufs[i].dirty
        invariant forall i :: 0 <= i < b ==> bufs[i].dev == NODEV
      {
        PushLinks(bufs, order, b);
        bufs := PushFront(bufs, b);
        var x := bufs[b].(dev := NODEV);
        LinksData(bufs, bufs[b := x], [b] + order);
        bufs := bufs[b := x];
        order := [b] + order;
      }
      buf := bufs;
      ring := order;
      new;
      assert Views(buf, disk) == image;
    }

    /** bget's first scan, from the most recently used buffer. */
    method FindCached(dev: uint, blockno: uint) returns (b: nat)
      requires Valid()
      ensures b <= HEAD
      ensures b == HEAD ==> forall i :: 0 <= i < NBUF ==> !Is(buf[i], dev, blockno)
      ensures b != HEAD ==> Is(buf[b], dev, blockno)
    {
      hide Unique, Coherent;
      b := buf[HEAD].next;
      ghost var k: nat := 1;
      assert Joined(buf, ring, 0);
      while b != HEAD
        invariant 1 <= k <= NBUF + 1 && b == At(ring, k)
        invariant forall i :: 0 <= i < k - 1 ==> !Is(buf[ring[i]], dev, blockno)
        decreases NBUF + 1 - k
      {
        if buf[b].dev == dev && buf[b].blockno == blockno {
          return;
        }
        assert Joined(buf, ring, k);
        b, k := buf[b].next, k + 1;
      }
      forall i | 0 <= i < NBUF ensures !Is(buf[i], dev, blockno) {
        assert i in ring;
      }
    }

    /** bget's second scan, from the least recently used buffer. */
    method FindClean() returns (b: nat)
      requires Valid()
      ensures b <= HEAD
      ensures b == HEAD ==> forall i :: 0 <= i < NBUF ==> buf[i].busy || buf[i].dirty
      ensures b != HEAD ==> !buf[b].busy && !buf[b].dirty && LeastRecent(buf, ring, b)
    {
      hide Unique, Coherent;
      b := buf[HEAD].prev;
      ghost var k: nat := NBUF;
      assert Joined(buf, ring, NBUF);
      while b != HEAD
        invariant 0 <= k <= NBUF && b == At(ring, k)
        invariant forall i :: k <= i < NBUF ==> buf[ring[i]].busy || buf[ring[i]].dirty
        decreases k
      {
        if !buf[b].busy && !buf[b].dirty {
          assert ring[k - 1] == b;
          return;
        }
        assert Joined(buf, ring, k - 1);
        b, k := buf[b].prev, k - 1;
      }
      forall i | 0 <= i < NBUF ensures buf[i].busy || buf[i].dirty {
        assert i in ring;
      }
    }

    /** bget */
    method Bget(dev: uint, blockno: uint) returns (r: Got)
      requires Valid() && dev != NODEV
      modifies this`buf
      ensures Valid() && Contents() == old(Contents()) && Pinned() == old(Pinned())
      ensures r.Cached? ==>
        && r.b < NBUF && Is(old(buf)[r.b], dev, blockno) && !old(buf)[r.b].busy
        && buf == old(buf)[r.b := old(buf)[r.b].(busy := true)]
      ensures r.Recycled? ==>
        && (forall i :: 0 <= i < NBUF ==> !Is(old(buf)[i], dev, blockno))
        && r.b < NBUF && !old(buf)[r.b].busy && !old(buf)[r.b].dirty
        && LeastRecent(old(buf), ring, r.b)
        && buf == old(buf)[r.b := old(buf)[r.b].(dev := dev, blockno := blockno, busy := true, valid := false,
            dirty := false)]
      ensures r.Sleep? ==> buf == old(buf) && r.b < NBUF && Is(buf[r.b], dev, blockno) && buf[r.b].busy
      ensures r.NoBuffers? ==>
        && buf == old(buf)
        && forall i :: 0 <= i < NBUF ==> !Is(buf[i], dev, blockno) && (buf[i].busy || buf[i].dirty)
    {
      hide Unique, Coherent, View, Views, PinnedIn, LeastRecent;
      var b := FindCached(dev, blockno);
      if b != HEAD {
        if buf[b].busy {
          return Sleep(b);
        }
        BusyView(buf, disk, b);
        LinksData(buf, buf[b := buf[b].(busy := true)], ring);
        buf := buf[b := buf[b].(busy := true)];
        return Cached(b);
      }
      b := FindClean();
      if b == HEAD {
        return NoBuffers;
      }
      var x := buf[b].(dev := dev, blockno := blockno, busy := true, valid := false, dirty := false);
      RecycleUnique(buf, b, x);
      RecycleView(buf, disk, b, x);
      LinksData(buf, buf[b := x], ring);
      buf := buf[b := x];
      return Recycled(b);
    }

    /** bread: a busy buffer with the block's current bytes. */
    method Bread(blockno: uint) returns (r: Got)
      requires Valid() && blockno < |disk|
      modifies this`buf
      ensures Valid() && Contents() == old(Contents()) && Pinned() == old(Pinned())
      ensures r.Cached? || r.Recycled? ==>
        && r.b < NBUF && !old(buf)[r.b].busy
        && buf[r.b].busy && buf[r.b].valid && Is(buf[r.b], ROOTDEV, blockno)
        && buf[r.b].data == old(Contents())[blockno]
        && (buf[r.b].dirty <==> blockno in Pinned())
        && (!buf[r.b].dirty ==> buf[r.b].data == disk[blockno])
        && (old(buf)[r.b].dirty ==> buf[r.b].dirty)
        && forall i :: 0 <= i < NBUF && i != r.b ==> buf[i] == old(buf)[i]
      ensures r.Sleep? ==> buf == old(buf) && r.b < NBUF && Is(buf[r.b], ROOTDEV, blockno) && buf[r.b].busy
      ensures r.NoBuffers? ==>
        && buf == old(buf)
        && forall i :: 0 <= i < NBUF ==> !Is(buf[i], ROOTDEV, blockno) && (buf[i].busy || buf[i].dirty)
    {
      r := Bget(ROOTDEV, blockno);
      if r.Cached? || r.Recycled? {
        if !buf[r.b].valid {
          // iderw: read
          FillView(buf, disk, r.b);
          LinksData(buf, buf[r.b := buf[r.b].(data := disk[blockno], valid := true)], ring);
          buf := buf[r.b := buf[r.b].(data := disk[blockno], valid := true)];
        }
        ViewCached(buf, disk, r.b);
        PinnedAt(buf, disk, r.b);
      }
    }

    /** The holder of a buffer changes its bytes. */
    method SetData(b: nat, data: Block)
      requires Valid() && b < NBUF && buf[b].busy && buf[b].valid
      modifies this`buf
      ensures Valid() && buf == old(buf)[b := old(buf)[b].(data := data)]
      ensures Contents() == old(Contents())[buf[b].blockno := data] && Pinned() == old(Pinned())
    {
      PokeView(buf, disk, b, buf[b].(data := data), disk);
      LinksData(buf, buf[b := buf[b].(data := data)], ring);
      buf := buf[b := buf[b].(data := data)];
    }

    /** log_write's flag: the buffer stays in the cache until it is written. */
    method MarkDirty(b: nat)
      requires Valid() && b < NBUF && buf[b].busy && buf[b].valid
      modifies this`buf
      ensures Valid() && buf == old(buf)[b := old(buf)[b].(dirty := true)]
      ensures Contents() == old(Contents()) && Pinned() == old(Pinned()) + {buf[b].blockno}
    {
      PokeView(buf, disk, b, buf[b].(dirty := true), disk);
      LinksData(buf, buf[b := buf[b].(dirty := true)], ring);
      buf := buf[b := buf[b].(dirty := true)];
    }

    /** bwrite */
    method Bwrite(b: nat)
      requires Valid() && b < NBUF && buf[b].busy && buf[b].valid
      modifies this`buf, this`disk, this`writes
      ensures Valid() && buf == old(buf)[b := old(buf)[b].(dirty := false)]
      ensures disk == old(disk)[buf[b].blockno := buf[b].data]
      ensures writes == old(writes) + [Write(buf[b].blockno, buf[b].data)]
      ensures Contents() == old(Contents()) && Pinned() == old(Pinned()) - {buf[b].blockno}
    {
      buf := buf[b := buf[b].(dirty := true)];
      // iderw: write
      ghost var disk' := disk[buf[b].blockno := buf[b].data];
      PokeView(old(buf), disk, b, buf[b].(dirty := false), disk');
      LinksData(old(buf), old(buf)[b := buf[b].(dirty := false)], ring);
      buf := buf[b := buf[b].(dirty := false)];
      assert buf == old(buf)[b := buf[b]];
      disk := disk[buf[b].blockno := buf[b].data];
      writes := writes + [Write(buf[b].blockno, buf[b].data)];
    }

    /** brelse: to the front of the ring. The holder must have logged or written its changes. */
    method Brelse(b: nat)
      requires Valid() && b < NBUF && buf[b].busy
      requires buf[b].valid && !buf[b].dirty ==> buf[b].data == disk[buf[b].blockno]
      modifies this`buf, this`ring
      ensures Valid()
      ensures exists k :: 0 <= k < NBUF && old(ring)[k] == b && ring == [b] + Without(old(ring), k)
      ensures forall i :: 0 <= i < NBUF ==>
        buf[i] == old(buf)[i].(prev := buf[i].prev, next := buf[i].next, busy := i != b && old(buf)[i].busy)
      ensures Contents() == old(Contents()) && Pinned() == old(Pinned())
    {
      hide Unique, Coherent, View, Views, PinnedIn;
      assert b in ring;
      ghost var k :| 0 <= k < NBUF && ring[k] == b;
      Release(buf, ring, k, disk);
      FrontMembers(ring, k);
      buf := Released(buf, b);
      ring := [b] + Without(ring, k);
    }
  }
}
