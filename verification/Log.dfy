/** log.c over the buffer cache: the methods perform exactly the write lists of RedoLog and the
    steps of GroupCommit. */
module Log {
  import opened Bytes
  import opened RedoLog
  import opened BufferCache
  import opened Sets
  import Gc = GroupCommit

  /** How a part of commit ends: Slept, to wait for a buffer that a reader holds; NoBuffer is bget's panic. */
  datatype Outcome = Done | Slept | NoBuffer

  /** What a reader does: take a block, or give back a buffer. */
  datatype Act = Take(b: uint) | GiveBack(i: nat)

  /** Where a commit that sleeps goes on: at a block of write_log or of install_trans, with the buffer of its log
      block held or (NBUF) not yet, or at one of the two calls of write_head. */
  datatype At = Logging(tail: nat, got: nat) | Heading | Installing(tail: nat, got: nat) | Clearing {

    /** How many of commit's writes have been made, n blocks being logged. */
    function Writes(n: nat): nat {
      match this
      case Logging(tail, _) => tail
      case Heading => n
      case Installing(tail, _) => n + 1 + tail
      case Clearing => 2 * n + 1
    }

    function Got(): nat {
      match this
      case Logging(_, got) => got
      case Installing(_, got) => got
      case _ => NBUF
    }

    predicate In(n: nat) {
      match this
      case Logging(tail, _) => tail < n
      case Installing(tail, _) => tail < n
      case _ => true
    }
  }

  // ---- buffers held by others ----

  /** Commit and recovery run beside readers, who take no part in transactions: held are the buffers they
      have busy. */
  ghost predicate BusyAre(buf: seq<Buf>, held: set<nat>)
    requires |buf| == NBUF + 1
  {
    forall i :: 0 <= i < NBUF ==> (buf[i].busy <==> i in held)
  }

  /** A reader does not change the bytes it holds. */
  ghost predicate OnlyRead(buf: seq<Buf>, disk: Disk, held: set<nat>)
    requires |buf| == NBUF + 1
  {
    forall i :: 0 <= i < NBUF && i in held && buf[i].valid && !buf[i].dirty ==>
      buf[i].blockno < |disk| && buf[i].data == disk[buf[i].blockno]
  }

  /** Someone holds block b. */
  ghost predicate HeldFor(buf: seq<Buf>, held: set<nat>, b: uint)
    requires |buf| == NBUF + 1
  {
    exists i :: 0 <= i < NBUF && i in held && Is(buf[i], ROOTDEV, b)
  }

  /** Some buffer is neither held nor pinned. */
  ghost predicate HasSpare(buf: seq<Buf>)
    requires |buf| == NBUF + 1
  {
    exists i :: 0 <= i < NBUF && !buf[i].busy && !buf[i].dirty
  }

  /** Nobody holds the two blocks, the log block is not pinned and the home block is; at boot nothing is. */
  ghost predicate CanCopy(buf: seq<Buf>, held: set<nat>, logb: uint, homeb: uint)
    requires |buf| == NBUF + 1
  {
    && !HeldFor(buf, held, logb) && !HeldFor(buf, held, homeb) && logb !in PinnedIn(buf)
    && (homeb in PinnedIn(buf) || (held == {} && PinnedIn(buf) == {}))
  }

  /** A block that commit needs is held by a reader. */
  ghost predicate Blocked(buf: seq<Buf>, held: set<nat>, a: Area, blocks: seq<uint>)
    requires |buf| == NBUF + 1
  {
    exists b: uint :: HeldFor(buf, held, b) && (a.Has(b) || b in blocks)
  }

  /** The readers' buffers have not changed, but for their place on the ring. */
  ghost predicate SameHeld(buf: seq<Buf>, buf': seq<Buf>, held: set<nat>)
    requires |buf| == NBUF + 1 && |buf'| == NBUF + 1
  {
    forall i :: 0 <= i < NBUF && i in held ==> buf'[i] == buf[i].(prev := buf'[i].prev, next := buf'[i].next)
  }

  lemma SameHeldSelf(buf: seq<Buf>, held: set<nat>)
    requires |buf| == NBUF + 1
    ensures SameHeld(buf, buf, held)
  {
  }

  lemma SameHeldFor(buf: seq<Buf>, buf': seq<Buf>, held: set<nat>, b: uint)
    requires |buf| == NBUF + 1 && |buf'| == NBUF + 1 && SameHeld(buf, buf', held)
    ensures HeldFor(buf', held, b) <==> HeldFor(buf, held, b)
  {
  }

  lemma SameHeldTransitive(a: seq<Buf>, b: seq<Buf>, c: seq<Buf>, held: set<nat>)
    requires |a| == NBUF + 1 && |b| == NBUF + 1 && |c| == NBUF + 1 && SameHeld(a, b, held) && SameHeld(b, c, held)
    ensures SameHeld(a, c, held)
  {
    forall i | 0 <= i < NBUF && i in held ensures c[i] == a[i].(prev := c[i].prev, next := c[i].next) {
      assert b[i] == a[i].(prev := b[i].prev, next := b[i].next);
    }
  }

  lemma SameBlocked(buf: seq<Buf>, buf': seq<Buf>, held: set<nat>, a: Area, blocks: seq<uint>)
    requires |buf| == NBUF + 1 && |buf'| == NBUF + 1 && SameHeld(buf, buf', held)
    ensures Blocked(buf', held, a, blocks) <==> Blocked(buf, held, a, blocks)
  {
    hide HeldFor;
    forall b: uint ensures HeldFor(buf', held, b) <==> HeldFor(buf, held, b) {
      SameHeldFor(buf, buf', held, b);
    }
  }

  lemma NobodyHolds(buf: seq<Buf>)
    requires |buf| == NBUF + 1
    ensures forall b: uint :: !HeldFor(buf, {}, b)
  {
  }

  /** If the transaction is not blocked, the next round can copy. */
  lemma NotBlocked(buf: seq<Buf>, buf': seq<Buf>, held: set<nat>, a: Area, lh: seq<uint>, k: nat)
    requires |buf| == NBUF + 1 && |buf'| == NBUF + 1 && SameHeld(buf, buf', held)
    requires k < |lh| <= a.size - 1 && a.Slot(k) < UINT_MOD && a.Slot(k) !in PinnedIn(buf')
    requires lh[k] in PinnedIn(buf') || (held == {} && PinnedIn(buf') == {})
    ensures HeldFor(buf', held, a.Slot(k)) || HeldFor(buf', held, lh[k]) ==> Blocked(buf, held, a, lh)
    ensures !Blocked(buf, held, a, lh) ==> CanCopy(buf', held, a.Slot(k), lh[k])
  {
    hide HeldFor, PinnedIn;
    SameHeldFor(buf, buf', held, a.Slot(k));
    SameHeldFor(buf, buf', held, lh[k]);
    assert a.Has(a.Slot(k));
  }

  lemma HeaderFree(buf: seq<Buf>, buf': seq<Buf>, held: set<nat>, a: Area, lh: seq<uint>)
    requires |buf| == NBUF + 1 && |buf'| == NBUF + 1 && SameHeld(buf, buf', held) && a.size >= 1 && a.start < UINT_MOD
    ensures HeldFor(buf', held, a.start) ==> Blocked(buf, held, a, lh)
  {
    hide HeldFor;
    SameHeldFor(buf, buf', held, a.start);
    assert a.Has(a.start);
  }

  /** The buffer that bread took for a block that is not pinned was a spare one. */
  lemma SpareRead(buf: seq<Buf>, buf': seq<Buf>, disk: Disk, held: set<nat>, l: nat)
    requires |buf| == NBUF + 1 && |buf'| == NBUF + 1 && BusyAre(buf, held) && OnlyRead(buf, disk, held)
    requires l < NBUF && !buf[l].busy && buf'[l].busy && (buf[l].dirty ==> buf'[l].dirty)
    requires forall i :: 0 <= i < NBUF && i != l ==> buf'[i] == buf[i]
    ensures l !in held && BusyAre(buf', held + {l}) && OnlyRead(buf', disk, held) && SameHeld(buf, buf', held)
    ensures !buf'[l].dirty ==> HasSpare(buf)
  {
  }

  /** A second bread sleeps only for a reader. */
  lemma SecondBusy(buf: seq<Buf>, buf': seq<Buf>, held: set<nat>, l: nat, homeb: uint, i: nat)
    requires |buf| == NBUF + 1 && |buf'| == NBUF + 1 && BusyAre(buf', held + {l}) && SameHeld(buf, buf', held)
    requires l < NBUF && i < NBUF && Is(buf'[i], ROOTDEV, homeb) && buf'[i].busy && !Is(buf'[l], ROOTDEV, homeb)
    ensures HeldFor(buf, held, homeb)
  {
    assert i in held;
  }

  /** A second bread of a pinned block does not need a buffer, and at boot there are enough. */
  lemma SecondFails(buf: seq<Buf>, buf': seq<Buf>, disk: Disk, held: set<nat>, l: nat, logb: uint, homeb: uint)
    requires |buf| == NBUF + 1 && |buf'| == NBUF + 1 && BusyAre(buf', held + {l}) && l < NBUF && Coherent(buf', disk)
    requires forall i :: 0 <= i < NBUF ==> !Is(buf'[i], ROOTDEV, homeb) && (buf'[i].busy || buf'[i].dirty)
    requires PinnedIn(buf') == PinnedIn(buf)
    ensures !CanCopy(buf, held, logb, homeb)
  {
    hide HeldFor;
    forall i | 0 <= i < NBUF && buf'[i].dirty ensures buf'[i].blockno != homeb {
      assert !Is(buf'[i], ROOTDEV, homeb);
    }
    var i := if l == 0 then 1 else 0;
    assert buf'[i].dirty ==> buf'[i].blockno in PinnedIn(buf');
    assert buf'[i].busy || buf'[i].dirty;
  }

  /** A pinned block is cached. */
  lemma NotCached(buf: seq<Buf>, disk: Disk, b: uint)
    requires |buf| == NBUF + 1 && Coherent(buf, disk) && forall i :: 0 <= i < NBUF ==> !Is(buf[i], ROOTDEV, b)
    ensures b !in PinnedIn(buf)
  {
    forall i | 0 <= i < NBUF && buf[i].dirty ensures buf[i].blockno != b {
      assert !Is(buf[i], ROOTDEV, b);
    }
  }

  /** With no one else about, there is a spare buffer exactly when not every buffer is pinned. */
  lemma SpareCount(buf: seq<Buf>, disk: Disk)
    requires |buf| == NBUF + 1 && Unique(buf) && Coherent(buf, disk) && BusyAre(buf, {})
    ensures HasSpare(buf) <==> |PinnedIn(buf)| < NBUF
  {
    if HasSpare(buf) {
      var i :| 0 <= i < NBUF && !buf[i].busy && !buf[i].dirty;
      if |PinnedIn(buf)| >= NBUF { AllPinned(buf, disk, i); }
    } else {
      PinnedCount(buf, disk, {});
    }
  }

  lemma UnpinnedView(buf: seq<Buf>, disk: Disk, held: set<nat>, b: nat)
    requires |buf| == NBUF + 1 && Unique(buf) && Coherent(buf, disk) && b < |disk| && b !in PinnedIn(buf)
    requires BusyAre(buf, held) && OnlyRead(buf, disk, held)
    ensures View(buf, disk, b) == disk[b]
  {
    if i :| 0 <= i < NBUF && buf[i].valid && buf[i].blockno == b {
      ViewCached(buf, disk, i);
    }
  }

  /** When every buffer is pinned, a block that is not pinned is not cached either. */
  lemma AllPinned(buf: seq<Buf>, disk: Disk, i: nat)
    requires |buf| == NBUF + 1 && Unique(buf) && Coherent(buf, disk) && i < NBUF && |PinnedIn(buf)| >= NBUF
    ensures buf[i].dirty && buf[i].blockno in PinnedIn(buf)
  {
    hide Indices;
    if !buf[i].dirty {
      var all := set j | 0 <= j < NBUF && buf[j].dirty;
      DirtyCount(buf, disk, all);
      assert (set j | j in all :: buf[j].blockno) == PinnedIn(buf);
      SubsetCount(all, Indices(NBUF) - {i});
    }
  }

  /** The cached bytes of a list of blocks. */
  ghost function Gather(view: Disk, blocks: seq<uint>): (r: seq<Block>)
    requires forall i :: 0 <= i < |blocks| ==> blocks[i] < |view|
    ensures |r| == |blocks|
  {
    seq(|blocks|, i requires 0 <= i < |blocks| => view[blocks[i]])
  }

  /** What commit and recovery can tell about the cache and the disk between two blocks. */
  datatype Snap = Snap(view: Disk, disk: Disk, pins: set<uint>, writes: seq<Write>)

  ghost predicate Sane(s: Snap, a: Area) {
    && |s.view| == |s.disk| && 1 <= a.size && a.start + a.size <= |s.disk|
    && (forall b :: b in s.pins ==> !a.Has(b))
  }

  /** Put data into block b and write it. */
  ghost function Put(s: Snap, b: uint, data: Block): Snap
    requires b < |s.view| == |s.disk|
  {
    Snap(s.view[b := data], s.disk[b := data], s.pins - {b}, s.writes + [Write(b, data)])
  }

  /** Log block b with new bytes. */
  ghost function Changed(s: Snap, b: uint, data: Block): Snap
    requires b < |s.view|
  {
    s.(view := s.view[b := data], pins := s.pins + {b})
  }

  /** Put a list of blocks, first to last. */
  ghost function PutAll(s: Snap, ws: seq<Write>): (r: Snap)
    requires |s.view| == |s.disk| <= UINT_MOD && InRange(s.disk, ws)
    ensures |r.view| == |r.disk| == |s.disk|
    ensures r.writes == s.writes + ws && r.disk == Apply(s.disk, ws) && r.view == Apply(s.view, ws)
    ensures forall b :: b in r.pins <==> b in s.pins && forall i :: 0 <= i < |ws| ==> ws[i].blockno != b
  {
    if ws == [] then s
    else
      var w := ws[|ws| - 1];
      var p := ws[..|ws| - 1];
      assert ws == p + [w];
      Put(PutAll(s, p), w.blockno, w.data)
  }

  /** t is s after the first k of the writes ws. */
  ghost predicate PutSome(s: Snap, t: Snap, ws: seq<Write>, k: nat) {
    && |s.view| == |s.disk| <= UINT_MOD && InRange(s.disk, ws) && k <= |ws|
    && t == PutAll(s, ws[..k])
  }

  lemma PutStep(s: Snap, t: Snap, ws: seq<Write>, k: nat)
    requires PutSome(s, t, ws, k) && k < |ws|
    ensures |t.view| == |t.disk| == |s.disk| && ws[k].blockno < |s.disk|
    ensures PutSome(s, Put(t, ws[k].blockno, ws[k].data), ws, k + 1)
  {
    assert ws[..k + 1][..k] == ws[..k];
  }

  lemma {:induction false} PutConcat(s: Snap, a: seq<Write>, b: seq<Write>)
    requires |s.view| == |s.disk| <= UINT_MOD && InRange(s.disk, a) && InRange(s.disk, b)
    ensures InRange(s.disk, a + b) && PutAll(s, a + b) == PutAll(PutAll(s, a), b)
  {
    if b == [] {
      assert a + b == a;
    } else {
      PutConcat(s, a, b[..|b| - 1]);
      assert (a + b)[..|a + b| - 1] == a + b[..|b| - 1];
    }
  }

  /** A block that ws does not target, or targets with the bytes it has, keeps its bytes. */
  lemma {:induction false} Untouched(d: Disk, ws: seq<Write>, b: nat)
    requires InRange(d, ws) && b < |d| && forall i :: 0 <= i < |ws| && ws[i].blockno == b ==> ws[i].data == d[b]
    ensures Apply(d, ws)[b] == d[b]
  {
    if ws != [] { Untouched(d, ws[..|ws| - 1], b); }
  }

  class Log {
    const area: Area
    const bc: Cache
    var lh: seq<uint>               // log.lh.block[..log.lh.n]
    var outstanding: nat
    var committing: bool
    ghost var used: map<nat, nat>   // blocks added by each outstanding operation

    ghost function State(): Gc.State
      reads this
    {
      Gc.State(lh, used, committing)
    }

    /** The busy buffers are the readers'. */
    ghost predicate Quiet(held: set<nat>)
      reads this, bc
    {
      bc.Valid() && BusyAre(bc.buf, held) && OnlyRead(bc.buf, bc.disk, held)
    }

    ghost function Snapshot(): (s: Snap)
      reads this, bc
      requires bc.Valid()
      ensures |s.view| == |s.disk|
    {
      Snap(bc.Contents(), bc.disk, bc.Pinned(), bc.writes)
    }

    /** The log outside commit: the blocks logged are the blocks pinned, the log on disk is empty, and the
        reservation holds. It depends on the cache only through the disk and the pins. */
    ghost predicate Between()
      reads this, bc
    {
      && bc.Valid() && Open(Snapshot(), area, lh) && GoodLog(bc.disk, area) && OnDisk(bc.disk, area) == []
      && Gc.Inv(State()) && outstanding == |used|
    }

    constructor (cache: Cache, a: Area)
      ensures bc == cache && area == a && State() == Gc.BOOT && outstanding == 0
    {
      bc := cache;
      area := a;
      lh, outstanding, committing, used := [], 0, false, map[];
    }

    // ---- group commit ----

    /** begin_op: admitted, or put to sleep to try again. */
    method BeginOp(ghost op: Gc.Op) returns (admitted: bool)
      requires Between() && op !in used
      modifies this`outstanding, this`used
      ensures Between() && admitted == Gc.Enabled(old(State()), Gc.Begin(op))
      ensures State() == if admitted then Gc.Next(old(State()), Gc.Begin(op)) else old(State())
      ensures admitted <==> !committing && |lh| + (old(outstanding) + 1) * 10 <= 30
      ensures outstanding == old(outstanding) + if admitted then 1 else 0
    {
      hide Open, GoodLog, OnDisk, Gc.Inv;
      if committing || |lh| + (outstanding + 1) * Gc.MAXOPBLOCKS > LOGSIZE {
        return false;
      }
      Gc.InvNext(State(), Gc.Begin(op));
      outstanding := outstanding + 1;
      used := used[op := 0];
      return true;
    }

    /** log_write of the busy buffer b by operation op; not ok is "too big a transaction". */
    method LogWrite(ghost op: Gc.Op, b: nat) returns (ok: bool)
      requires Between() && b < NBUF && bc.buf[b].busy && bc.buf[b].valid && !area.Has(bc.buf[b].blockno)
      requires Gc.Enabled(State(), Gc.Log(op, bc.buf[b].blockno))
      modifies this`lh, this`used, bc`buf
      ensures Between() && ok == !Gc.Panics(old(State()), area.size)
      ensures ok <==> |old(lh)| < 30 && |old(lh)| < area.size - 1
      ensures ok ==>
        && State() == Gc.Next(old(State()), Gc.Log(op, old(bc.buf)[b].blockno))
        && lh == (if bc.buf[b].blockno in old(lh) then old(lh) else old(lh) + [bc.buf[b].blockno])
        && bc.buf == old(bc.buf)[b := old(bc.buf)[b].(dirty := true)]
        && bc.Contents() == old(bc.Contents())
        && bc.Pinned() == old(bc.Pinned()) + {bc.buf[b].blockno}
    {
      hide GoodLog, OnDisk, Open, Gc.Inv, Unique, Views, PinnedIn, Links;
      if |lh| >= LOGSIZE || |lh| >= area.size - 1 {
        return false;
      }
      assert op in used;
      var blockno := bc.buf[b].blockno;
      Gc.InvNext(State(), Gc.Log(op, blockno));
      OpenMore(Snapshot(), area, lh, blockno);
      var i := 0;
      while i < |lh| && lh[i] != blockno
        invariant 0 <= i <= |lh| && blockno !in lh[..i]
      {
        i := i + 1;
      }
      if i == |lh| {
        assert lh[..i] == lh;
        used := used[op := used[op] + 1];
        lh := lh + [blockno];
      } else {
        lh := lh[i := blockno];
      }
      bc.MarkDirty(b);
      assert used.Keys == old(used.Keys) && |used| == |used.Keys| && |old(used)| == |old(used.Keys)|;
      assert lh == if blockno in old(lh) then old(lh) else old(lh) + [blockno];
      return true;
    }

    /** bread beside readers. */
    method ReadBlock(b: uint, ghost held: set<nat>) returns (r: Outcome, i: nat)
      requires Quiet(held) && b < |bc.disk|
      modifies bc`buf
      ensures bc.Valid() && Snapshot() == old(Snapshot()) && SameHeld(old(bc.buf), bc.buf, held)
      ensures !r.Done? ==> Quiet(held)
      ensures r.Slept? ==> HeldFor(old(bc.buf), held, b)
      ensures !HeldFor(old(bc.buf), held, b) ==>
        r == if b in old(bc.Pinned()) || HasSpare(old(bc.buf)) then Done else NoBuffer
      ensures r.Done? ==> i < NBUF && i !in held && Held(i, b) && (bc.buf[i].dirty <==> b in bc.Pinned())
      ensures r.Done? ==> BusyAre(bc.buf, held + {i}) && OnlyRead(bc.buf, bc.disk, held)
    {
      hide Links, Unique, View, Views, PinnedIn;
      i := 0;
      var got := bc.Bread(b);
      if got.Sleep? {
        return Slept, i;
      }
      if got.NoBuffers? {
        NotCached(bc.buf, bc.disk, b);
        return NoBuffer, i;
      }
      SpareRead(old(bc.buf), bc.buf, bc.disk, held, got.b);
      return Done, got.b;
    }

    /** What every system call does to a block: bread, new bytes, log_write, brelse. Not ok is log_write's panic. */
    method Update(ghost op: Gc.Op, b: uint, data: Block, ghost held: set<nat>) returns (r: Outcome, ok: bool)
      requires Quiet(held) && Between() && b < |bc.disk| && !area.Has(b) && Gc.Enabled(State(), Gc.Log(op, b))
      modifies this`lh, this`used, bc
      ensures bc.Valid() && Between()
      ensures !HeldFor(old(bc.buf), held, b) ==>
        r == if b in old(bc.Pinned()) || HasSpare(old(bc.buf)) then Done else NoBuffer
      ensures r.Slept? ==> HeldFor(old(bc.buf), held, b)
      ensures !r.Done? ==> Quiet(held) && Snapshot() == old(Snapshot()) && State() == old(State())
      ensures r.Done? ==> ok == !Gc.Panics(old(State()), area.size)
      ensures r.Done? && ok ==>
        && Quiet(held) && Snapshot() == Changed(old(Snapshot()), b, data)
        && State() == Gc.Next(old(State()), Gc.Log(op, b))
        && bc.Contents() == old(bc.Contents())[b := data] && bc.Pinned() == old(bc.Pinned()) + {b}
        && bc.disk == old(bc.disk) && bc.writes == old(bc.writes)
        && lh == (if b in old(lh) then old(lh) else old(lh) + [b])
    {
      hide Links, Unique, Coherent, View, Views, PinnedIn, Open, GoodLog, OnDisk, Gc.Inv, HeldFor, HasSpare;
      ok := false;
      var i;
      r, i := ReadBlock(b, held);
      OpenView(old(Snapshot()), Snapshot(), area, lh);
      if !r.Done? {
        return;
      }
      bc.SetData(i, data);
      OpenView(old(Snapshot()), Snapshot(), area, lh);
      ok := LogWrite(op, i);
      if ok {
        bc.Brelse(i);
      }
    }

    /** end_op up to the commit; the kernel panics if it finds a commit running. */
    method EndOp(ghost op: Gc.Op) returns (doCommit: bool)
      requires Between() && Gc.Enabled(State(), Gc.End(op))
      modifies this`outstanding, this`committing, this`used
      ensures Between() && State() == Gc.Next(old(State()), Gc.End(op)) && doCommit == committing
      ensures outstanding == old(outstanding) - 1 && (committing <==> outstanding == 0)
    {
      hide Open, GoodLog, OnDisk;
      Gc.InvNext(State(), Gc.End(op));
      assert !committing;
      outstanding := outstanding - 1;
      used := used - {op};
      assert used == map[] <==> |used| == 0;
      if outstanding == 0 {
        committing := true;
      }
      return committing;
    }

    /** end_op after the commit. */
    method CommitDone()
      requires Between() && Gc.Enabled(State(), Gc.CommitDone) && lh == []
      modifies this`committing
      ensures Between() && State() == Gc.Next(old(State()), Gc.CommitDone) && !committing
    {
      hide Open, GoodLog, OnDisk;
      Gc.InvNext(State(), Gc.CommitDone);
      committing := false;
    }

    // ---- commit and recovery ----

    /** The busy buffers are the readers' and, unless got is NBUF, buffer got, which commit holds for block
        logb. */
    ghost predicate Waiting(held: set<nat>, got: nat, logb: nat)
      reads this, bc
    {
      && bc.Valid() && OnlyRead(bc.buf, bc.disk, held)
      && BusyAre(bc.buf, if got < NBUF then held + {got} else held)
      && (got < NBUF ==> got !in held && logb < |bc.disk| && Held(got, logb))
    }

    lemma NoneGot(held: set<nat>, got: nat, logb: nat)
      requires bc.Valid() && got >= NBUF
      ensures Waiting(held, got, logb) <==> Quiet(held)
    {
    }

    /** bread the log block, unless got is its buffer already, then the home block, both held on success. */
    method ReadPair(logb: uint, homeb: uint, ghost held: set<nat>, got: nat) returns (r: Outcome, l: nat, h: nat)
      requires Waiting(held, got, logb) && logb != homeb && logb < |bc.disk| && homeb < |bc.disk|
      modifies bc`buf
      ensures bc.Valid() && Snapshot() == old(Snapshot()) && SameHeld(old(bc.buf), bc.buf, held)
      ensures r.Slept? ==> HeldFor(old(bc.buf), held, logb) || HeldFor(old(bc.buf), held, homeb)
      ensures r.Slept? ==> Waiting(held, l, logb)
      ensures CanCopy(old(bc.buf), held, logb, homeb) ==>
        r == if got < NBUF || HasSpare(old(bc.buf)) then Done else NoBuffer
      ensures r.Done? ==>
        && l < NBUF && h < NBUF && l != h && l !in held && h !in held
        && Held(l, logb) && Held(h, homeb)
        && BusyAre(bc.buf, held + {l, h}) && OnlyRead(bc.buf, bc.disk, held)
    {
      hide Links, Unique, View, Views, PinnedIn, HasSpare;
      l, h := got, 0;
      if got >= NBUF {
        r, l := ReadBlock(logb, held);
        if !r.Done? {
          return r, NBUF, h;
        }
      }
      ghost var buf1 := bc.buf;
      var r2 := bc.Bread(homeb);
      if r2.Sleep? {
        SecondBusy(old(bc.buf), buf1, held, l, homeb, r2.b);
        return Slept, l, h;
      }
      if r2.NoBuffers? {
        SecondFails(old(bc.buf), buf1, bc.disk, held, l, logb, homeb);
        return NoBuffer, l, h;
      }
      return Done, l, r2.b;
    }

    /** Buffer i is held for block b and shows its current bytes. */
    ghost predicate Held(i: nat, b: nat)
      reads bc
      requires i < NBUF && |bc.buf| == NBUF + 1 && b < |bc.disk|
    {
      var x := bc.buf[i];
      && x.busy && x.valid && x.dev == ROOTDEV && x.blockno == b && x.data == bc.Contents()[b]
      && (!x.dirty ==> x.data == bc.disk[b])
    }

    /** New bytes for a held buffer, written to the disk. */
    method Store(i: nat, data: Block, ghost held: set<nat>)
      requires bc.Valid() && i < NBUF && i !in held && bc.buf[i].busy && bc.buf[i].valid
      requires OnlyRead(bc.buf, bc.disk, held)
      requires forall j :: 0 <= j < NBUF && j in held ==> bc.buf[j].busy
      modifies bc
      ensures bc.Valid() && bc.buf == old(bc.buf)[i := old(bc.buf)[i].(data := data, dirty := false)]
      ensures bc.buf[i].blockno < |bc.disk| && OnlyRead(bc.buf, bc.disk, held)
      ensures Snapshot() == Put(old(Snapshot()), bc.buf[i].blockno, data)
    {
      hide Links, View, Views, PinnedIn;
      bc.SetData(i, data);
      bc.Bwrite(i);
    }

    /** Copy one held buffer over another, write it, release both. */
    method CopyHeld(src: nat, dst: nat, ghost held: set<nat>)
      requires bc.Valid() && src < NBUF && dst < NBUF && src != dst && src !in held && dst !in held
      requires bc.buf[src].blockno < |bc.disk| && bc.buf[dst].blockno < |bc.disk|
      requires Held(src, bc.buf[src].blockno) && Held(dst, bc.buf[dst].blockno)
      requires BusyAre(bc.buf, held + {src, dst}) && OnlyRead(bc.buf, bc.disk, held)
      requires bc.buf[src].blockno != bc.buf[dst].blockno
      modifies bc
      ensures Quiet(held) && HasSpare(bc.buf) && SameHeld(old(bc.buf), bc.buf, held)
      ensures Snapshot() == Put(old(Snapshot()), old(bc.buf)[dst].blockno, old(bc.buf)[src].data)
    {
      hide Links, Unique, Coherent, View, Views, PinnedIn, HeldFor;
      Store(dst, bc.buf[src].data, held);
      bc.Brelse(src);
      bc.Brelse(dst);
    }

    /** One round of write_log (toLog) or install_trans; got' is the log block's buffer if it sleeps with that. */
    method CopyBlock(logb: uint, homeb: uint, toLog: bool, ghost held: set<nat>, got: nat)
      returns (r: Outcome, got': nat)
      requires Waiting(held, got, logb) && logb != homeb && logb < |bc.disk| && homeb < |bc.disk|
      modifies bc
      ensures bc.Valid() && SameHeld(old(bc.buf), bc.buf, held)
      ensures !r.Done? ==> Snapshot() == old(Snapshot())
      ensures r.Slept? ==> HeldFor(old(bc.buf), held, logb) || HeldFor(old(bc.buf), held, homeb)
      ensures r.Slept? ==> Waiting(held, got', logb)
      ensures CanCopy(old(bc.buf), held, logb, homeb) ==>
        r == if got < NBUF || HasSpare(old(bc.buf)) then Done else NoBuffer
      ensures r.Done? ==> got' == NBUF && Quiet(held) && HasSpare(bc.buf) && var s := old(Snapshot());
        Snapshot() == if toLog then Put(s, logb, s.view[homeb]) else Put(s, homeb, s.view[logb])
    {
      hide Links, Unique, Coherent, View, Views, PinnedIn, CanCopy, HeldFor, HasSpare;
      var h;
      r, got', h := ReadPair(logb, homeb, held, got);
      if r.Done? {
        ghost var buf1 := bc.buf;
        CopyHeld(if toLog then h else got', if toLog then got' else h, held);
        SameHeldTransitive(old(bc.buf), buf1, bc.buf, held);
        got' := NBUF;
      }
    }

    /** The round for block tail of the transaction, which is the next of the writes ws. buf0 is the cache when
        the loop started. */
    method CopyNext(toLog: bool, tail: nat, ghost held: set<nat>, got: nat, ghost s: Snap, ghost ws: seq<Write>,
        ghost buf0: seq<Buf>)
      returns (r: Outcome, got': nat)
      requires tail < |lh| <= area.size - 1 && |buf0| == NBUF + 1 && Waiting(held, got, area.Slot(tail))
      requires area.Slot(tail) < |bc.disk| <= UINT_MOD && lh[tail] < |bc.disk| && area.Slot(tail) != lh[tail]
      requires |ws| == |lh| && PutSome(s, Snapshot(), ws, tail) && SameHeld(buf0, bc.buf, held)
      requires area.Slot(tail) !in bc.Pinned() && (lh[tail] in bc.Pinned() || (held == {} && bc.Pinned() == {}))
      requires ws[tail] ==
        if toLog then Write(area.Slot(tail), bc.Contents()[lh[tail]])
        else Write(lh[tail], bc.Contents()[area.Slot(tail)])
      modifies bc
      ensures bc.Valid() && SameHeld(buf0, bc.buf, held)
      ensures PutSome(s, Snapshot(), ws, if r.Done? then tail + 1 else tail)
      ensures r.Slept? ==> Blocked(buf0, held, area, lh) && Waiting(held, got', area.Slot(tail))
      ensures !Blocked(buf0, held, area, lh) ==> r == if got < NBUF || HasSpare(old(bc.buf)) then Done else NoBuffer
      ensures r.Done? ==> got' == NBUF && HasSpare(bc.buf) && Quiet(held) && Waiting(held, got', area.Slot(tail + 1))
    {
      hide Links, Unique, Coherent, View, Views, PinnedIn, Apply, HeldFor, HasSpare, CanCopy, OnlyRead, BusyAre;
      hide Blocked, SameHeld, Log.Held, PutSome;
      ghost var buf1 := bc.buf;
      NotBlocked(buf0, buf1, held, area, lh, tail);
      PutStep(s, Snapshot(), ws, tail);
      r, got' := CopyBlock(area.Slot(tail), lh[tail], toLog, held, got);
      SameHeldTransitive(buf0, buf1, bc.buf, held);
    }

    /** write_log, from block tail0 on; s is the cache and disk at its start. */
    method WriteLog(ghost held: set<nat>, tail0: nat, got0: nat, ghost s: Snap)
      returns (r: Outcome, tail: nat, got: nat)
      requires Open(s, area, lh) && tail0 <= |lh| && (tail0 == |lh| ==> got0 >= NBUF)
      requires Waiting(held, got0, area.Slot(tail0))
      requires PutSome(s, Snapshot(), LogWrites(area, Gather(s.view, lh)), tail0)
      modifies bc
      ensures bc.Valid() && SameHeld(old(bc.buf), bc.buf, held) && tail0 <= tail <= |lh| && (r.Done? <==> tail == |lh|)
      ensures PutSome(s, Snapshot(), LogWrites(area, Gather(s.view, lh)), tail)
      ensures r.Slept? ==> Blocked(old(bc.buf), held, area, lh) && Waiting(held, got, area.Slot(tail))
      ensures !Blocked(old(bc.buf), held, area, lh) ==>
        r == if tail0 == |lh| || got0 < NBUF || HasSpare(old(bc.buf)) then Done else NoBuffer
      ensures r.Done? ==> Quiet(held) && (tail0 < |lh| ==> HasSpare(bc.buf))
    {
      hide Links, Unique, Coherent, View, Views, PinnedIn, Apply, HeldFor, HasSpare, CanCopy, OnlyRead, BusyAre;
      hide Blocked, SameHeld, PutSome, LogWrites, Log.Held, Distinct, Gather;
      ghost var buf0 := bc.buf;
      SameHeldSelf(buf0, held);
      ghost var ws := LogWrites(area, Gather(s.view, lh));
      assert bc.Valid();
      if got0 >= NBUF { NoneGot(held, got0, area.Slot(tail0)); }
      hide Log.Waiting, Log.Quiet, Open, Sane, Loggable;
      tail, got := tail0, got0;
      while tail < |lh|
        invariant tail0 <= tail <= |lh| && bc.Valid() && SameHeld(buf0, bc.buf, held)
        invariant Waiting(held, got, area.Slot(tail)) && (got >= NBUF ==> Quiet(held))
        invariant if tail == tail0 then bc.buf == buf0 && got == got0 else HasSpare(bc.buf) && got == NBUF
        invariant tail > tail0 && !Blocked(buf0, held, area, lh) ==> got0 < NBUF || HasSpare(buf0)
        invariant PutSome(s, Snapshot(), ws, tail)
      {
        LogRound(s, Snapshot(), area, lh, tail);
        r, got := CopyNext(true, tail, held, got, s, ws, buf0);
        if !r.Done? {
          return;
        }
        tail := tail + 1;
      }
      r := Done;
    }

    /** The header fields, stored over the block as it is. */
    method FillHeader(block: Block) returns (h: Block)
      requires |lh| <= LOGSIZE
      ensures h == PutHeader(block, lh)
      ensures Word(h, 0) == |lh| && forall i :: 0 <= i < |lh| ==> Word(h, i + 1) == lh[i]
    {
      h := PutWord(block, 0, |lh|);
      ghost var h0 := h;
      for i := 0 to |lh|
        invariant h == PutNumbers(h0, lh[..i])
      {
        h := PutWord(h, i + 1, lh[i]);
        assert lh[..i + 1][..i] == lh[..i];
      }
      assert lh[..|lh|] == lh;
      HeaderWord(block, lh, 0);
      forall i | 0 <= i < |lh| ensures Word(h, i + 1) == lh[i] {
        HeaderWord(block, lh, i + 1);
      }
    }

    /** write_head */
    method WriteHead(ghost held: set<nat>) returns (r: Outcome)
      requires Quiet(held) && Sane(Snapshot(), area) && |lh| <= LOGSIZE
      modifies bc
      ensures bc.Valid() && SameHeld(old(bc.buf), bc.buf, held)
      ensures !r.Done? ==> Snapshot() == old(Snapshot())
      ensures r.Slept? ==> HeldFor(old(bc.buf), held, area.start) && Quiet(held)
      ensures !HeldFor(old(bc.buf), held, area.start) ==> r == if HasSpare(old(bc.buf)) then Done else NoBuffer
      ensures r.Done? ==> Quiet(held) && HasSpare(bc.buf)
      ensures r.Done? ==> Snapshot() == Put(old(Snapshot()), area.start, PutHeader(old(bc.disk)[area.start], lh))
    {
      hide Links, Unique, Coherent, View, Views, PinnedIn, PutHeader, HeldFor;
      var i;
      assert area.Has(area.start);
      r, i := ReadBlock(area.start, held);
      if !r.Done? {
        return;
      }
      var h := FillHeader(bc.buf[i].data);
      Store(i, h, held);
      bc.Brelse(i);
    }

    /** install_trans, from block tail0 on; s is the cache and disk at its start. */
    method InstallTrans(ghost held: set<nat>, tail0: nat, got0: nat, ghost s: Snap)
      returns (r: Outcome, tail: nat, got: nat)
      requires Sane(s, area) && |s.disk| <= UINT_MOD && Loggable(s.disk, area, lh)
      requires tail0 <= |lh| && (tail0 == |lh| ==> got0 >= NBUF) && Waiting(held, got0, area.Slot(tail0))
      requires (forall i :: 0 <= i < |lh| ==> lh[i] in s.pins) || (held == {} && s.pins == {})
      requires PutSome(s, Snapshot(), InstallWrites(lh, LogBlocks(s.view, area, |lh|)), tail0)
      modifies bc
      ensures bc.Valid() && SameHeld(old(bc.buf), bc.buf, held) && tail0 <= tail <= |lh| && (r.Done? <==> tail == |lh|)
      ensures PutSome(s, Snapshot(), InstallWrites(lh, LogBlocks(s.view, area, |lh|)), tail)
      ensures r.Slept? ==> Blocked(old(bc.buf), held, area, lh) && Waiting(held, got, area.Slot(tail))
      ensures !Blocked(old(bc.buf), held, area, lh) ==>
        r == if tail0 == |lh| || got0 < NBUF || HasSpare(old(bc.buf)) then Done else NoBuffer
      ensures r.Done? ==> Quiet(held) && (tail0 < |lh| ==> HasSpare(bc.buf))
      ensures tail0 == |lh| ==> bc.buf == old(bc.buf)
    {
      hide Links, Unique, Coherent, View, Views, PinnedIn, Apply, HeldFor, HasSpare, CanCopy, OnlyRead, BusyAre;
      hide Blocked, SameHeld, PutSome, InstallWrites, LogBlocks, Log.Held, Distinct;
      ghost var buf0 := bc.buf;
      SameHeldSelf(buf0, held);
      ghost var ws := InstallWrites(lh, LogBlocks(s.view, area, |lh|));
      assert bc.Valid();
      if got0 >= NBUF { NoneGot(held, got0, area.Slot(tail0)); }
      hide Log.Waiting, Log.Quiet, Sane, Loggable;
      tail, got := tail0, got0;
      while tail < |lh|
        invariant tail0 <= tail <= |lh| && bc.Valid() && SameHeld(buf0, bc.buf, held)
        invariant Waiting(held, got, area.Slot(tail)) && (got >= NBUF ==> Quiet(held))
        invariant if tail == tail0 then bc.buf == buf0 && got == got0 else HasSpare(bc.buf) && got == NBUF
        invariant tail > tail0 && !Blocked(buf0, held, area, lh) ==> got0 < NBUF || HasSpare(buf0)
        invariant PutSome(s, Snapshot(), ws, tail)
      {
        InstallRound(s, Snapshot(), area, lh, tail);
        r, got := CopyNext(false, tail, held, got, s, ws, buf0);
        if !r.Done? {
          return;
        }
        tail := tail + 1;
      }
      r := Done;
    }

    /** read_head, at boot. */
    method ReadHead()
      requires Quiet({}) && bc.Pinned() == {} && GoodLog(bc.disk, area)
      modifies this`lh, bc
      ensures Quiet({}) && Snapshot() == old(Snapshot()) && lh == OnDisk(bc.disk, area)
    {
      hide Links, View, Views;
      SpareCount(bc.buf, bc.disk);
      var out, r := ReadBlock(area.start, {});
      var h := bc.buf[r].data;
      var blocks: seq<uint> := [];
      for i := 0 to Word(h, 0)
        invariant blocks == GetHeader(h)[..i]
      {
        blocks := blocks + [Word(h, i + 1)];
      }
      lh := blocks;
      bc.Brelse(r);
    }

    /** commit has got to pc. s is the cache and disk at its start, blocks what was logged then; the buffers of
        held are the readers' now. */
    ghost predicate Midway(pc: At, held: set<nat>, s: Snap, blocks: seq<uint>)
      reads this, bc
    {
      && Open(s, area, blocks) && GoodLog(s.disk, area) && OnDisk(s.disk, area) == [] && blocks != []
      && used == map[] && outstanding == 0 && lh == (if pc.Clearing? then [] else blocks)
      && pc.In(|blocks|) && Waiting(held, pc.Got(), if pc.Logging? || pc.Installing? then area.Slot(pc.tail) else 0)
      && CommitPrefix(s, Snapshot(), area, blocks, pc.Writes(|blocks|))
    }

    /** The first half of commit: the log, then the header that makes it count. */
    method CommitLogged(pc: At, ghost held: set<nat>, ghost s: Snap) returns (r: Outcome, pc': At)
      requires Midway(pc, held, s, lh) && (pc.Logging? || pc.Heading?)
      modifies bc
      ensures bc.Valid() && SameHeld(old(bc.buf), bc.buf, held)
      ensures r.Done? ==> pc' == Installing(0, NBUF) && Midway(pc', held, s, lh) && HasSpare(bc.buf)
      ensures r.Slept? ==> Midway(pc', held, s, lh) && Blocked(old(bc.buf), held, area, lh)
      ensures pc.Writes(|lh|) <= pc'.Writes(|lh|) <= |lh| + 1 && CommitPrefix(s, Snapshot(), area, lh, pc'.Writes(|lh|))
      ensures !Blocked(old(bc.buf), held, area, lh) ==>
        r == if pc.Got() < NBUF || HasSpare(old(bc.buf)) then Done else NoBuffer
    {
      hide Links, Unique, Coherent, View, Views, PinnedIn, PutAll, PutHeader, LogWrites, Apply, CommitPrefix;
      hide HeldFor, HasSpare, OnlyRead, BusyAre, Blocked, OnDisk, Word, Log.Held;
      ghost var buf0 := bc.buf;
      pc' := pc;
      SameHeldSelf(buf0, held);
      if pc.Logging? {
        PrefixLog(s, Snapshot(), area, lh, pc.tail);
        var tail, got;
        r, tail, got := WriteLog(held, pc.tail, pc.got, s);
        PrefixLog(s, Snapshot(), area, lh, tail);
        if !r.Done? {
          return r, Logging(tail, got);
        }
        pc' := Heading;
      }
      ghost var buf1 := bc.buf;
      PrefixLog(s, Snapshot(), area, lh, |lh|);
      AllLogged(s, Snapshot(), area, lh);
      CommitLog(s, area, lh);
      HeaderFree(buf0, buf1, held, area, lh);
      SameHeldFor(buf0, buf1, held, area.start);
      r := WriteHead(held);
      SameHeldTransitive(buf0, buf1, bc.buf, held);
      if r.Done? {
        PrefixHead(s, area, lh);
        pc' := Installing(0, NBUF);
      }
    }

    /** The second half: the blocks to their homes, then an empty header. */
    method CommitInstalled(pc: At, ghost held: set<nat>, ghost s: Snap, ghost blocks: seq<uint>)
      returns (r: Outcome, pc': At)
      requires Midway(pc, held, s, blocks) && (pc.Installing? || pc.Clearing?)
      modifies this`lh, bc
      ensures bc.Valid() && SameHeld(old(bc.buf), bc.buf, held)
      ensures r.Done? ==> Quiet(held) && lh == [] && CommitPrefix(s, Snapshot(), area, blocks, 2 * |blocks| + 2)
      ensures r.Slept? ==> Midway(pc', held, s, blocks) && Blocked(old(bc.buf), held, area, blocks)
      ensures !r.Done? ==>
        && pc.Writes(|blocks|) <= pc'.Writes(|blocks|) <= 2 * |blocks| + 1
        && CommitPrefix(s, Snapshot(), area, blocks, pc'.Writes(|blocks|))
      ensures !Blocked(old(bc.buf), held, area, blocks) ==>
        r == if pc.Got() < NBUF || HasSpare(old(bc.buf)) then Done else NoBuffer
    {
      hide Links, Unique, Coherent, View, Views, PinnedIn, PutAll, PutHeader, LogWrites, InstallWrites, Apply,
        CommitPrefix;
      hide HeldFor, HasSpare, OnlyRead, BusyAre, Blocked, OnDisk, Word, Log.Held;
      ghost var buf0, n := bc.buf, |blocks|;
      pc' := pc;
      SameHeldSelf(buf0, held);
      if pc.Installing? {
        CommitHead(s, area, blocks);
        ghost var t := PrefixInstallIs(s, Snapshot(), area, blocks, pc.tail);
        var tail, got;
        r, tail, got := InstallTrans(held, pc.tail, pc.got, t);
        PrefixInstalled(s, t, Snapshot(), area, blocks, tail);
        if !r.Done? {
          return r, Installing(tail, got);
        }
        pc' := Clearing;
        lh := [];
      }
      ghost var buf1 := bc.buf;
      ghost var t := PrefixInstallIs(s, Snapshot(), area, blocks, n);
      AllInstalled(t, Snapshot(), area, blocks);
      CommitInstall(s, area, blocks);
      HeaderFree(buf0, buf1, held, area, blocks);
      SameHeldFor(buf0, buf1, held, area.start);
      r := WriteHead(held);
      SameHeldTransitive(buf0, buf1, bc.buf, held);
      if r.Done? {
        PrefixAll(s, area, blocks);
      }
    }

    /** commit, from where it slept. */
    method Resume(pc: At, ghost held: set<nat>, ghost s: Snap, ghost blocks: seq<uint>) returns (r: Outcome, pc': At)
      requires Midway(pc, held, s, blocks)
      modifies this`lh, bc
      ensures bc.Valid() && SameHeld(old(bc.buf), bc.buf, held)
      ensures r.Done? ==> Quiet(held) && Between() && lh == [] && bc.Pinned() == {}
      ensures r.Done? ==> CommitPrefix(s, Snapshot(), area, blocks, 2 * |blocks| + 2)
      ensures r.Slept? ==> Midway(pc', held, s, blocks) && Blocked(old(bc.buf), held, area, blocks)
      ensures !r.Done? ==>
        && pc.Writes(|blocks|) <= pc'.Writes(|blocks|) <= 2 * |blocks| + 1
        && CommitPrefix(s, Snapshot(), area, blocks, pc'.Writes(|blocks|))
      ensures !Blocked(old(bc.buf), held, area, blocks) ==>
        r == if pc.Got() < NBUF || HasSpare(old(bc.buf)) then Done else NoBuffer
    {
      hide Links, Unique, Coherent, View, Views, PinnedIn, PutAll, CommitWrites, Apply, Open, OnDisk, GoodLog;
      hide HeldFor, HasSpare, OnlyRead, BusyAre, Blocked, CommitPrefix, Log.Held;
      ghost var buf0 := bc.buf;
      pc' := pc;
      SameHeldSelf(buf0, held);
      SameBlocked(buf0, buf0, held, area, blocks);
      if pc.Logging? || pc.Heading? {
        r, pc' := CommitLogged(pc, held, s);
        if !r.Done? {
          return;
        }
        SameBlocked(buf0, bc.buf, held, area, blocks);
      }
      ghost var buf1 := bc.buf;
      r, pc' := CommitInstalled(pc', held, s, blocks);
      SameHeldTransitive(buf0, buf1, bc.buf, held);
      if r.Done? {
        CommitDurable(s, Snapshot(), area, blocks);
        Gc.SpareEmpty();
      }
    }

    /** commit. Whatever readers hold, its writes are the first of the transaction's list, and all of them
        when it gets through. It sleeps only for a block of the transaction or of the log that a reader
        holds, to be resumed at pc; otherwise bget panics exactly when every buffer is held or pinned. */
    method Commit(ghost held: set<nat>) returns (r: Outcome, pc: At)
      requires Quiet(held) && Between() && used == map[]
      modifies this`lh, bc
      ensures bc.Valid() && SameHeld(old(bc.buf), bc.buf, held)
      ensures r.Done? ==> Quiet(held) && Between() && lh == [] && bc.Pinned() == {}
      ensures var s, blocks := old(Snapshot()), old(lh);
        && (r.Done? ==> CommitPrefix(s, Snapshot(), area, blocks, if blocks == [] then 0 else 2 * |blocks| + 2))
        && (!r.Done? ==> pc.Writes(|blocks|) <= 2 * |blocks| + 1 &&
                         CommitPrefix(s, Snapshot(), area, blocks, pc.Writes(|blocks|)))
        && (r.Slept? ==> Midway(pc, held, s, blocks) && Blocked(old(bc.buf), held, area, blocks))
        && (!Blocked(old(bc.buf), held, area, blocks) ==>
              r == if blocks == [] || HasSpare(old(bc.buf)) then Done else NoBuffer)
    {
      hide Links, Unique, Coherent, View, Views, PinnedIn, PutAll, CommitWrites, Apply, OnDisk, GoodLog;
      hide HeldFor, HasSpare, OnlyRead, BusyAre, Blocked, SameHeld, CommitPrefix, Log.Held;
      pc := Logging(0, NBUF);
      SameHeldSelf(bc.buf, held);
      if |lh| == 0 {
        NothingLogged(Snapshot(), area);
        return Done, pc;
      }
      LogStart(Snapshot(), area, lh);
      PrefixLog(Snapshot(), Snapshot(), area, lh, 0);
      r, pc := Resume(pc, held, Snapshot(), lh);
    }

    /** A reader acts while commit sleeps; if it has to wait, or the buffer is not a reader's, nothing happens. */
    method Reader(act: Act, pc: At, ghost held: set<nat>, ghost s: Snap, ghost blocks: seq<uint>)
      returns (ghost held': set<nat>)
      requires Midway(pc, held, s, blocks)
      modifies bc
      ensures bc.Valid() && Midway(pc, held', s, blocks) && Snapshot() == old(Snapshot())
    {
      hide Links, Unique, Coherent, View, Views, PinnedIn, Open, GoodLog, OnDisk, CommitPrefix;
      held' := held;
      match act
      case Take(b) =>
        if b < |bc.disk| {
          var got := bc.Bread(b);
          if got.Cached? || got.Recycled? { held' := held + {got.b}; }
        }
      case GiveBack(i) =>
        if i < NBUF && bc.buf[i].busy && i != pc.Got() {
          bc.Brelse(i);
          held' := held - {i};
        }
    }

    /** commit beside readers who act as the script says, a part of it each time commit sleeps. However often
        it sleeps, its writes are the first k of the one list, and all of them when it gets through. */
    method CommitBeside(script: seq<seq<Act>>, ghost held0: set<nat>)
      returns (r: Outcome, ghost held: set<nat>, ghost k: nat)
      requires Quiet(held0) && Between() && used == map[]
      modifies this`lh, bc
      ensures bc.Valid() && CommitPrefix(old(Snapshot()), Snapshot(), area, old(lh), k)
      ensures r.Done? ==> k == (if old(lh) == [] then 0 else 2 * |old(lh)| + 2)
      ensures r.Done? ==> Quiet(held) && Between() && lh == [] && bc.Pinned() == {}
    {
      hide Links, Unique, Coherent, View, Views, PinnedIn, Open, GoodLog, OnDisk, CommitPrefix, Log.Waiting;
      hide Blocked, HasSpare, SameHeld, OnlyRead, BusyAre;
      held := held0;
      ghost var s, blocks := Snapshot(), lh;
      var pc, round;
      r, pc := Commit(held);
      round := 0;
      while r.Slept? && round < |script|
        invariant bc.Valid() && 0 <= round <= |script| && (r.Slept? ==> Midway(pc, held, s, blocks))
        invariant r.Done? ==> Quiet(held) && Between() && lh == [] && bc.Pinned() == {}
        invariant r.Done? ==> CommitPrefix(s, Snapshot(), area, blocks, if blocks == [] then 0 else 2 * |blocks| + 2)
        invariant !r.Done? ==> CommitPrefix(s, Snapshot(), area, blocks, pc.Writes(|blocks|))
      {
        var j := 0;
        while j < |script[round]|
          invariant bc.Valid() && 0 <= j <= |script[round]| && Midway(pc, held, s, blocks)
        {
          held := Reader(script[round][j], pc, held, s, blocks);
          j := j + 1;
        }
        r, pc := Resume(pc, held, s, blocks);
        round := round + 1;
      }
      k := if !r.Done? then pc.Writes(|blocks|) else if blocks == [] then 0 else 2 * |blocks| + 2;
    }

    /** Three operations begin on an empty log. */
    method BeginThree()
      requires Between() && State() == Gc.BOOT
      modifies this`outstanding, this`used
      ensures Between() && State() == Gc.State([], map[0 := 0, 1 := 0, 2 := 0], false)
    {
      hide Open, GoodLog, OnDisk, Gc.Inv, Log.Between;
      var in0 := BeginOp(0);
      var in1 := BeginOp(1);
      var in2 := BeginOp(2);
      assert used == map[0 := 0, 1 := 0, 2 := 0];
    }

    lemma Nobody()
      requires Quiet({})
      ensures HasSpare(bc.buf) <==> |bc.Pinned()| < NBUF
      ensures (forall b: uint :: !HeldFor(bc.buf, {}, b)) && !Blocked(bc.buf, {}, area, lh)
    {
      SpareCount(bc.buf, bc.disk);
      NobodyHolds(bc.buf);
    }

    /** They have logged the first n of thirty blocks. */
    ghost predicate Filled(n: nat)
      reads this, bc
    {
      && Quiet({}) && Between() && |bc.disk| == 80 && area == Area(2, 32) && n <= 30
      && State() == Gc.State(Homes(n), Counts(n), false)
      && |bc.Pinned()| == n && forall b :: b in bc.Pinned() ==> b < 40 + n
    }

    method LogHome(n: nat)
      requires Filled(n) && n < 30
      modifies this`lh, this`used, bc
      ensures Filled(n + 1)
    {
      hide Open, GoodLog, OnDisk, Gc.Inv, HeldFor, HasSpare, Blocked, PinnedIn, Homes, Counts, Links, Unique, Coherent;
      hide OnlyRead, BusyAre, Log.Between;
      NextHome(n);
      Nobody();
      var out, ok := Update(n / 10, 40 + n, ZeroBlock(), {});
    }

    method LogThirty()
      requires Filled(0)
      modifies this`lh, this`used, bc
      ensures Filled(30)
    {
      hide Log.Filled;
      var n := 0;
      while n < 30
        invariant 0 <= n <= 30 && Filled(n)
      {
        LogHome(n);
        n := n + 1;
      }
    }

    /** They end, and the last has to commit. */
    method EndThree()
      requires Between() && used.Keys == {0, 1, 2}
      modifies this`outstanding, this`committing, this`used
      ensures Between() && used == map[] && lh == old(lh)
    {
      hide Open, GoodLog, OnDisk, Gc.Inv, Log.Between;
      var last0 := EndOp(0);
      var last1 := EndOp(1);
      var last2 := EndOp(2);
      assert used.Keys == {};
    }

    /** All three together, from an empty log to a cache with every buffer pinned. */
    method FillCache()
      requires Quiet({}) && Between() && |bc.disk| == 80 && area == Area(2, 32) && bc.Pinned() == {}
      requires State() == Gc.BOOT
      modifies this, bc
      ensures Quiet({}) && Between() && used == map[] && lh != []
      ensures !HasSpare(bc.buf) && !Blocked(bc.buf, {}, area, lh)
    {
      hide Open, GoodLog, OnDisk, Gc.Inv, Log.Between, HeldFor, HasSpare, Blocked, PinnedIn;
      BeginThree();
      EndHomes();
      LogThirty();
      EndThree();
      Nobody();
    }

    /** recover_from_log, with the empty cache of a reboot. */
    method RecoverFromLog()
      requires Quiet({}) && bc.Pinned() == {} && GoodLog(bc.disk, area)
      requires State() == Gc.BOOT && outstanding == 0
      modifies this`lh, bc
      ensures Quiet({}) && bc.Pinned() == {} && lh == [] && Between()
      ensures bc.writes == old(bc.writes) + RecoverWrites(old(bc.disk), area)
      ensures InRange(old(bc.disk), RecoverWrites(old(bc.disk), area))
      ensures bc.disk == Apply(old(bc.disk), RecoverWrites(old(bc.disk), area))
    {
      hide Links, PutAll, RecoverWrites, PutHeader, InstallWrites, Apply, Views, PinnedIn, Blocked, HasSpare;
      hide Gc.Inv, Open, OnDisk, GetHeader;
      ghost var s := Snapshot();
      BootView(bc.buf, bc.disk);
      ReadHead();
      BootFree(bc.buf, bc.disk, area, lh);
      RecoverStart(s, area);
      var r, tail, got := InstallTrans({}, 0, NBUF, s);
      RecoverInstall(s, area);
      RecoverAll(s, area);
      ghost var lh0 := lh;
      lh := [];
      BootFree(bc.buf, bc.disk, area, lh0);
      r := WriteHead({});
      RecoverOpen(s, area);
      Gc.SpareEmpty();
    }
  }

  lemma BootView(buf: seq<Buf>, disk: Disk)
    requires |buf| == NBUF + 1 && Unique(buf) && Coherent(buf, disk) && BusyAre(buf, {}) && PinnedIn(buf) == {}
    ensures Views(buf, disk) == disk
  {
    forall b | 0 <= b < |disk| ensures Views(buf, disk)[b] == disk[b] {
      UnpinnedView(buf, disk, {}, b);
    }
  }

  /** At boot nothing is held or pinned. */
  lemma BootFree(buf: seq<Buf>, disk: Disk, a: Area, lh: seq<uint>)
    requires |buf| == NBUF + 1 && Unique(buf) && Coherent(buf, disk) && BusyAre(buf, {}) && PinnedIn(buf) == {}
    ensures HasSpare(buf) && !Blocked(buf, {}, a, lh) && forall b: uint :: !HeldFor(buf, {}, b)
  {
    SpareCount(buf, disk);
    NobodyHolds(buf);
  }

  /** The transaction is in the cache: every logged block pinned, nothing else. */
  ghost predicate Open(s: Snap, a: Area, lh: seq<uint>) {
    && Sane(s, a) && |s.disk| <= UINT_MOD && Loggable(s.disk, a, lh)
    && (forall i :: 0 <= i < |lh| ==> lh[i] in s.pins)
    && (forall b :: b in s.pins ==> b in lh)
  }

  /** A block more in the transaction. */
  lemma OpenMore(s: Snap, a: Area, lh: seq<uint>, b: uint)
    requires Open(s, a, lh) && |lh| < LOGSIZE && |lh| < a.size - 1 && b < |s.disk| && !a.Has(b)
    ensures Open(s.(pins := s.pins + {b}), a, if b in lh then lh else lh + [b])
  {
  }

  /** What the cache shows plays no part. */
  lemma OpenView(s: Snap, t: Snap, a: Area, lh: seq<uint>)
    requires Open(s, a, lh) && t.disk == s.disk && t.pins == s.pins && |t.view| == |s.view|
    ensures Open(t, a, lh)
  {
  }

  lemma LogStart(s: Snap, a: Area, lh: seq<uint>)
    requires Open(s, a, lh)
    ensures PutSome(s, s, LogWrites(a, Gather(s.view, lh)), 0)
  {
  }

  lemma LogRound(s: Snap, t: Snap, a: Area, lh: seq<uint>, k: nat)
    requires Open(s, a, lh) && k < |lh| && PutSome(s, t, LogWrites(a, Gather(s.view, lh)), k)
    ensures |t.view| == |t.disk| == |s.disk| <= UINT_MOD
    ensures var ws := LogWrites(a, Gather(s.view, lh));
      && |ws| == |lh| && lh[k] < |s.disk| && ws[k] == Write(a.Slot(k), t.view[lh[k]])
      && t.pins == s.pins && lh[k] in t.pins
      && a.Slot(k) !in t.pins && a.Slot(k) != lh[k] && a.Slot(k) < |s.disk| && |lh| <= a.size - 1
  {
    var ws := LogWrites(a, Gather(s.view, lh));
    assert forall i :: 0 <= i < |ws| ==> a.Has(ws[i].blockno);
    Untouched(s.view, ws[..k], lh[k]);
    assert forall b :: b in t.pins <==> b in s.pins;
  }

  lemma InstallRound(s: Snap, t: Snap, a: Area, lh: seq<uint>, k: nat)
    requires Sane(s, a) && |s.disk| <= UINT_MOD && Loggable(s.disk, a, lh) && k < |lh|
    requires (forall i :: 0 <= i < |lh| ==> lh[i] in s.pins) || s.pins == {}
    requires PutSome(s, t, InstallWrites(lh, LogBlocks(s.view, a, |lh|)), k)
    ensures |t.view| == |t.disk| == |s.disk|
    ensures var ws := InstallWrites(lh, LogBlocks(s.view, a, |lh|));
      && |ws| == |lh| && a.Slot(k) < |s.disk| && ws[k] == Write(lh[k], t.view[a.Slot(k)]) && a.Slot(k) != lh[k]
      && lh[k] < |s.disk| && |lh| <= a.size - 1
      && a.Slot(k) !in t.pins && (if s.pins == {} then t.pins == {} else lh[k] in t.pins)
  {
    var ws := InstallWrites(lh, LogBlocks(s.view, a, |lh|));
    assert a.Has(a.Slot(k)) && ws[k].data == s.view[a.Slot(k)];
    assert forall i :: 0 <= i < k ==> ws[..k][i].blockno == lh[i];
    hide InstallWrites, LogBlocks, Apply;
    Untouched(s.view, ws[..k], a.Slot(k));
    InstallPins(s, ws[..k], lh, k);
  }

  lemma InstallPins(s: Snap, ws: seq<Write>, lh: seq<uint>, k: nat)
    requires |s.view| == |s.disk| <= UINT_MOD && InRange(s.disk, ws) && k < |lh| && |ws| == k && Distinct(lh)
    requires forall i :: 0 <= i < k ==> ws[i].blockno == lh[i]
    ensures PutAll(s, ws).pins <= s.pins && (lh[k] in s.pins ==> lh[k] in PutAll(s, ws).pins)
  {
    hide Apply;
  }

  lemma LogSlot(v: Disk, a: Area, data: seq<Block>, i: nat)
    requires |data| < a.size && a.start + a.size <= |v| && i < |data|
    ensures InRange(v, LogWrites(a, data)) && Apply(v, LogWrites(a, data))[a.Slot(i)] == data[i]
  {
    LastWrite(v, LogWrites(a, data), i, a.Slot(i));
  }

  lemma LogSlots(v: Disk, a: Area, data: seq<Block>)
    requires |data| < a.size && a.start + a.size <= |v|
    ensures InRange(v, LogWrites(a, data)) && LogBlocks(Apply(v, LogWrites(a, data)), a, |data|) == data
  {
    hide Apply;
    var r := Apply(v, LogWrites(a, data));
    forall i | 0 <= i < |data| ensures r[a.Slot(i)] == data[i] {
      LogSlot(v, a, data, i);
    }
    SlotsAre(r, a, data);
  }

  /** After write_log: the log slots hold the data, and the transaction is still open. */
  lemma CommitLog(s: Snap, a: Area, lh: seq<uint>)
    requires Open(s, a, lh) && GoodLog(s.disk, a) && OnDisk(s.disk, a) == []
    ensures var data := Gather(s.view, lh);
      && InRange(s.disk, LogWrites(a, data)) && var t := PutAll(s, LogWrites(a, data));
      && Open(t, a, lh) && t.pins == s.pins
      && t.disk[a.start] == s.disk[a.start] && LogBlocks(t.view, a, |lh|) == data
  {
    var data := Gather(s.view, lh);
    var ws := LogWrites(a, data);
    LogSlots(s.view, a, data);
    assert forall i :: 0 <= i < |ws| ==> a.Has(ws[i].blockno);
    var t := PutAll(s, ws);
    assert t.pins == s.pins;
    Untouched(s.disk, ws, a.start);
  }

  /** After the header write: installing can start. */
  lemma CommitHead(s: Snap, a: Area, lh: seq<uint>)
    requires Open(s, a, lh) && GoodLog(s.disk, a) && OnDisk(s.disk, a) == []
    ensures var data := Gather(s.view, lh);
      && InRange(s.disk, LogWrites(a, data)) && a.start < |s.disk|
      && var t := Put(PutAll(s, LogWrites(a, data)), a.start, PutHeader(s.disk[a.start], lh));
      && Open(t, a, lh) && t.pins == s.pins && LogBlocks(t.view, a, |lh|) == data
  {
    CommitLog(s, a, lh);
    assert a.Has(a.start);
  }

  /** After install_trans nothing is pinned. */
  lemma InstallUnpins(s: Snap, a: Area, lh: seq<uint>, data: seq<Block>)
    requires Open(s, a, lh) && |data| == |lh|
    ensures InRange(s.disk, InstallWrites(lh, data)) && var t := PutAll(s, InstallWrites(lh, data));
      Sane(t, a) && t.pins == {} && t.disk[a.start] == s.disk[a.start]
  {
    var i := InstallWrites(lh, data);
    assert a.Has(a.start);
    Untouched(s.disk, i, a.start);
    forall b | b in s.pins ensures b !in PutAll(s, i).pins {
      var k :| 0 <= k < |lh| && lh[k] == b;
      assert i[k].blockno == b;
    }
  }

  /** The four phases make up commit's write list. */
  lemma CommitList(s: Snap, a: Area, lh: seq<uint>, data: seq<Block>)
    requires Open(s, a, lh) && |data| == |lh|
    ensures InRange(s.disk, LogWrites(a, data)) && InRange(s.disk, InstallWrites(lh, data)) && a.start < |s.disk|
      && var h := PutHeader(s.disk[a.start], lh);
      && var t := PutAll(Put(PutAll(s, LogWrites(a, data)), a.start, h), InstallWrites(lh, data));
      && var ws := CommitWrites(s.disk[a.start], a, lh, data);
      && InRange(s.disk, ws) && Put(t, a.start, PutHeader(h, [])) == PutAll(s, ws)
  {
    hide Word, PutHeader;
    var l, i := LogWrites(a, data), InstallWrites(lh, data);
    var h := PutHeader(s.disk[a.start], lh);
    CommitInRange(s.disk, a, lh, data);
    var ws := CommitWrites(s.disk[a.start], a, lh, data);
    var p := ws[..|ws| - 1];
    assert p == l + [Write(a.start, h)] + i;
    PutConcat(s, l + [Write(a.start, h)], i);
    assert (l + [Write(a.start, h)])[..|l|] == l;
  }

  lemma CommitInstall(s: Snap, a: Area, lh: seq<uint>)
    requires Open(s, a, lh) && GoodLog(s.disk, a) && OnDisk(s.disk, a) == []
    ensures var data := Gather(s.view, lh);
      && InRange(s.disk, LogWrites(a, data)) && InRange(s.disk, InstallWrites(lh, data)) && a.start < |s.disk|
      && var h := PutHeader(s.disk[a.start], lh);
      && var t := PutAll(Put(PutAll(s, LogWrites(a, data)), a.start, h), InstallWrites(lh, data));
      && Sane(t, a) && t.pins == {} && t.disk[a.start] == h
      && var ws := CommitWrites(s.disk[a.start], a, lh, data);
      && InRange(s.disk, ws) && Put(t, a.start, PutHeader(h, [])) == PutAll(s, ws)
  {
    var data := Gather(s.view, lh);
    CommitHead(s, a, lh);
    CommitList(s, a, lh, data);
    InstallUnpins(Put(PutAll(s, LogWrites(a, data)), a.start, PutHeader(s.disk[a.start], lh)), a, lh, data);
  }

  /** t is s after the first k of commit's writes. */
  ghost predicate CommitPrefix(s: Snap, t: Snap, a: Area, lh: seq<uint>, k: nat) {
    Open(s, a, lh) && a.start < |s.disk| &&
    var ws := CommitWrites(s.disk[a.start], a, lh, Gather(s.view, lh));
    k <= |ws| && InRange(s.disk, ws) && t == PutAll(s, ws[..k])
  }

  // Where each phase stands in commit's write list
  lemma PrefixLog(s: Snap, t: Snap, a: Area, lh: seq<uint>, k: nat)
    requires Open(s, a, lh) && k <= |lh|
    ensures PutSome(s, t, LogWrites(a, Gather(s.view, lh)), k) <==> CommitPrefix(s, t, a, lh, k)
  {
    hide PutAll, PutHeader, Word;
    var data := Gather(s.view, lh);
    CommitInRange(s.disk, a, lh, data);
    assert CommitWrites(s.disk[a.start], a, lh, data)[..k] == LogWrites(a, data)[..k];
  }

  lemma AllLogged(s: Snap, t: Snap, a: Area, lh: seq<uint>)
    requires Open(s, a, lh) && PutSome(s, t, LogWrites(a, Gather(s.view, lh)), |lh|)
    ensures InRange(s.disk, LogWrites(a, Gather(s.view, lh))) && t == PutAll(s, LogWrites(a, Gather(s.view, lh)))
  {
    hide PutAll;
    assert LogWrites(a, Gather(s.view, lh))[..|lh|] == LogWrites(a, Gather(s.view, lh));
  }

  /** The log, the header, and j of the blocks. */
  lemma CommitParts(s: Snap, a: Area, lh: seq<uint>, j: nat)
    requires Open(s, a, lh) && j <= |lh|
    ensures var l, i := LogWrites(a, Gather(s.view, lh)), InstallWrites(lh, Gather(s.view, lh));
      && InRange(s.disk, l) && InRange(s.disk, i) && a.start < |s.disk| && |l| == |i| == |lh|
      && var ws, h := CommitWrites(s.disk[a.start], a, lh, Gather(s.view, lh)),
        Write(a.start, PutHeader(s.disk[a.start], lh));
      InRange(s.disk, ws) && |ws| == 2 * |lh| + 2 && ws[..|lh| + 1 + j] == l + [h] + i[..j]
  {
    hide Word, PutHeader;
    CommitInRange(s.disk, a, lh, Gather(s.view, lh));
  }

  lemma PrefixInstall(s: Snap, a: Area, lh: seq<uint>, j: nat)
    requires Open(s, a, lh) && j <= |lh|
    ensures var l, i := LogWrites(a, Gather(s.view, lh)), InstallWrites(lh, Gather(s.view, lh));
      && InRange(s.disk, l) && InRange(s.disk, i) && a.start < |s.disk| && |i| == |lh|
      && CommitPrefix(s, PutAll(Put(PutAll(s, l), a.start, PutHeader(s.disk[a.start], lh)), i[..j]), a, lh,
          |lh| + 1 + j)
  {
    hide Word, PutHeader, CommitWrites, LogWrites, InstallWrites, Apply;
    CommitParts(s, a, lh, j);
    var l, i := LogWrites(a, Gather(s.view, lh)), InstallWrites(lh, Gather(s.view, lh));
    var h := Write(a.start, PutHeader(s.disk[a.start], lh));
    assert (l + [h])[..|l|] == l;
    PutConcat(s, l + [h], i[..j]);
  }

  lemma AllInstalled(s1: Snap, t: Snap, a: Area, lh: seq<uint>)
    requires Open(s1, a, lh) && PutSome(s1, t, InstallWrites(lh, LogBlocks(s1.view, a, |lh|)), |lh|)
    ensures var ws := InstallWrites(lh, LogBlocks(s1.view, a, |lh|)); InRange(s1.disk, ws) && t == PutAll(s1, ws)
  {
    hide PutAll;
    var ws := InstallWrites(lh, LogBlocks(s1.view, a, |lh|));
    assert ws[..|lh|] == ws;
  }

  lemma PrefixHead(s: Snap, a: Area, lh: seq<uint>)
    requires Open(s, a, lh)
    ensures var l := LogWrites(a, Gather(s.view, lh));
      && InRange(s.disk, l) && a.start < |s.disk|
      && var t := Put(PutAll(s, l), a.start, PutHeader(s.disk[a.start], lh));
      CommitPrefix(s, t, a, lh, |lh| + 1)
  {
    hide LogWrites, InstallWrites, PutHeader, CommitWrites, Apply;
    PrefixInstall(s, a, lh, 0);
    assert InstallWrites(lh, Gather(s.view, lh))[..0] == [];
  }

  /** t is j blocks into install_trans, which started from s1. */
  lemma PrefixInstallIs(s: Snap, t: Snap, a: Area, lh: seq<uint>, j: nat) returns (s1: Snap)
    requires CommitPrefix(s, t, a, lh, |lh| + 1 + j) && j <= |lh| && GoodLog(s.disk, a) && OnDisk(s.disk, a) == []
    ensures var l := LogWrites(a, Gather(s.view, lh));
      && InRange(s.disk, l) && a.start < |s.disk| && s1 == Put(PutAll(s, l), a.start, PutHeader(s.disk[a.start], lh))
      && Open(s1, a, lh) && LogBlocks(s1.view, a, |lh|) == Gather(s.view, lh)
      && PutSome(s1, t, InstallWrites(lh, LogBlocks(s1.view, a, |lh|)), j)
  {
    hide LogWrites, InstallWrites, PutHeader, CommitWrites, Apply, PutAll, OnDisk;
    CommitHead(s, a, lh);
    PrefixInstall(s, a, lh, j);
    s1 := Put(PutAll(s, LogWrites(a, Gather(s.view, lh))), a.start, PutHeader(s.disk[a.start], lh));
  }

  lemma PrefixInstalled(s: Snap, s1: Snap, t: Snap, a: Area, lh: seq<uint>, j: nat)
    requires Open(s, a, lh) && j <= |lh| && InRange(s.disk, LogWrites(a, Gather(s.view, lh))) && a.start < |s.disk|
    requires s1 == Put(PutAll(s, LogWrites(a, Gather(s.view, lh))), a.start, PutHeader(s.disk[a.start], lh))
    requires LogBlocks(s1.view, a, |lh|) == Gather(s.view, lh)
    requires PutSome(s1, t, InstallWrites(lh, LogBlocks(s1.view, a, |lh|)), j)
    ensures CommitPrefix(s, t, a, lh, |lh| + 1 + j)
  {
    hide LogWrites, InstallWrites, PutHeader, CommitWrites, Apply, PutAll, CommitPrefix;
    PrefixInstall(s, a, lh, j);
  }

  lemma NothingLogged(s: Snap, a: Area)
    requires Open(s, a, [])
    ensures s.pins == {} && CommitPrefix(s, s, a, [], 0)
  {
    hide Word, PutHeader;
    CommitInRange(s.disk, a, [], Gather(s.view, []));
  }

  lemma PrefixAll(s: Snap, a: Area, lh: seq<uint>)
    requires Open(s, a, lh)
    ensures var ws := CommitWrites(s.disk[a.start], a, lh, Gather(s.view, lh));
      InRange(s.disk, ws) && CommitPrefix(s, PutAll(s, ws), a, lh, 2 * |lh| + 2)
  {
    hide PutAll;
    CommitInRange(s.disk, a, lh, Gather(s.view, lh));
    var ws := CommitWrites(s.disk[a.start], a, lh, Gather(s.view, lh));
    assert ws[..2 * |lh| + 2] == ws;
  }

  /** After commit the log is empty, on disk and in memory. */
  lemma CommitDurable(s: Snap, t: Snap, a: Area, lh: seq<uint>)
    requires Open(s, a, lh) && GoodLog(s.disk, a) && OnDisk(s.disk, a) == [] && CommitPrefix(s, t, a, lh, 2 * |lh| + 2)
    ensures t.pins == {} && Open(t, a, []) && GoodLog(t.disk, a) && OnDisk(t.disk, a) == []
  {
    hide Apply, GetHeader, Word, PutHeader, LogWrites, InstallWrites, CommitWrites, OnDisk, Gather;
    var data := Gather(s.view, lh);
    CommitInRange(s.disk, a, lh, data);
    CommitUnpins(s, t, a, lh);
    CommitAfterHeader(s.disk, a, lh, data, 2 * |lh| + 2);
    OpenEmpty(s, t, a, lh);
  }

  lemma CommitUnpins(s: Snap, t: Snap, a: Area, lh: seq<uint>)
    requires Open(s, a, lh) && GoodLog(s.disk, a) && OnDisk(s.disk, a) == [] && CommitPrefix(s, t, a, lh, 2 * |lh| + 2)
    ensures t.pins == {}
  {
    hide Apply, GetHeader, Word, PutHeader, LogWrites, InstallWrites, PutAll;
    CommitInRange(s.disk, a, lh, Gather(s.view, lh));
    CommitInstall(s, a, lh);
    var ws := CommitWrites(s.disk[a.start], a, lh, Gather(s.view, lh));
    hide CommitWrites;
    assert ws[..2 * |lh| + 2] == ws;
  }

  lemma OpenEmpty(s: Snap, t: Snap, a: Area, lh: seq<uint>)
    requires Open(s, a, lh) && |t.view| == |t.disk| == |s.disk| && t.pins == {}
    ensures Open(t, a, [])
  {
  }

  /** The whole log: a crash after any k of commit's writes, with any number of crashes during recovery,
      leaves each home block as the last commit left it, or as readers saw it when this commit began;
      which of the two is decided for all blocks at once by the header write. */
  lemma CommitCrash(s: Snap, a: Area, lh: seq<uint>, k: nat, ks: seq<nat>, b: nat)
    requires Open(s, a, lh) && GoodLog(s.disk, a) && OnDisk(s.disk, a) == [] && k <= 2 * |lh| + 2
    requires b < |s.disk| && !a.Has(b) && (b !in s.pins ==> s.view[b] == s.disk[b])
    ensures var ws := CommitWrites(s.disk[a.start], a, lh, Gather(s.view, lh));
      && |ws| == 2 * |lh| + 2 && InRange(s.disk, ws[..k]) && var crashed := PutAll(s, ws[..k]).disk;
      && GoodLog(crashed, a)
      && Reboot(crashed, a, ks)[b] == if k <= |lh| then s.disk[b] else s.view[b]
  {
    hide Apply, GetHeader, Word, PutHeader, LogWrites, InstallWrites, Reboot, Committed;
    var data := Gather(s.view, lh);
    CommitInRange(s.disk, a, lh, data);
    CrashAtomicity(s.disk, a, lh, data, k, ks);
    if b in s.pins {
      var i :| 0 <= i < |lh| && lh[i] == b;
      UpdatedIs(lh, data, i, s.disk[b]);
    }
  }

  /** Which of commit's writes go to home blocks, and with what. */
  lemma CommitTargets(h: Block, v: Disk, a: Area, lh: seq<uint>)
    requires Loggable(v, a, lh)
    ensures var ws := CommitWrites(h, a, lh, Gather(v, lh));
      && |ws| == 2 * |lh| + 2
      && (forall k :: 0 <= k < |lh| ==> ws[|lh| + 1 + k] == Write(lh[k], v[lh[k]]))
      && (forall i :: 0 <= i < |ws| && !a.Has(ws[i].blockno) ==> ws[i].blockno in lh && ws[i].data == v[ws[i].blockno])
  {
    hide PutHeader;
  }

  /** Commit changes what is on disk, not what a reader of a home block sees; and afterwards the
      disk itself shows it. */
  lemma CommitKeepsView(s: Snap, a: Area, lh: seq<uint>, b: nat)
    requires Open(s, a, lh) && b < |s.disk| && !a.Has(b) && (b !in s.pins ==> s.view[b] == s.disk[b])
    ensures var ws := CommitWrites(s.disk[a.start], a, lh, Gather(s.view, lh));
      InRange(s.disk, ws) && PutAll(s, ws).view[b] == s.view[b] && PutAll(s, ws).disk[b] == s.view[b]
  {
    CommitInRange(s.disk, a, lh, Gather(s.view, lh));
    CommitTargets(s.disk[a.start], s.view, a, lh);
    hide CommitWrites, Gather, Apply, PutAll;
    KeepsHome(s.view, s.disk, CommitWrites(s.disk[a.start], a, lh, Gather(s.view, lh)), a, lh, b);
  }

  lemma KeepsHome(view: Disk, disk: Disk, ws: seq<Write>, a: Area, lh: seq<uint>, b: nat)
    requires |view| == |disk| && InRange(disk, ws) && b < |disk| && !a.Has(b) && (b !in lh ==> view[b] == disk[b])
    requires |ws| == 2 * |lh| + 2 && forall k :: 0 <= k < |lh| ==> ws[|lh| + 1 + k].blockno == lh[k]
    requires forall i :: 0 <= i < |ws| && !a.Has(ws[i].blockno) ==>
      ws[i].blockno in lh && ws[i].blockno < |view| && ws[i].data == view[ws[i].blockno]
    ensures Apply(view, ws)[b] == view[b] && Apply(disk, ws)[b] == view[b]
  {
    hide Apply;
    assert forall i :: 0 <= i < |ws| && ws[i].blockno == b ==> b in lh && ws[i].data == view[b];
    Untouched(view, ws, b);
    if b in lh {
      var k :| 0 <= k < |lh| && lh[k] == b;
      LastWrite(disk, ws, |lh| + 1 + k, b);
    } else {
      Untouched(disk, ws, b);
    }
  }

  /** If some write puts the bytes x into b, and no write puts others there, b ends up as x. */
  lemma {:induction false} LastWrite(d: Disk, ws: seq<Write>, k: nat, b: nat)
    requires InRange(d, ws) && k < |ws| && ws[k].blockno == b
    requires forall i :: 0 <= i < |ws| && ws[i].blockno == b ==> ws[i].data == ws[k].data
    ensures Apply(d, ws)[b] == ws[k].data
  {
    if k < |ws| - 1 { LastWrite(d, ws[..|ws| - 1], k, b); }
  }

  lemma RecoverInstall(s: Snap, a: Area)
    requires s.view == s.disk && s.pins == {} && |s.disk| <= UINT_MOD && GoodLog(s.disk, a)
    ensures var lh := OnDisk(s.disk, a);
      var ws := RecoverWrites(s.disk, a);
      var i := InstallWrites(lh, LogBlocks(s.view, a, |lh|));
      && InRange(s.disk, i) && InRange(s.disk, ws) && a.start < |s.disk|
      && var t := PutAll(s, i);
      && Sane(t, a) && t.pins == {} && t.disk[a.start] == s.disk[a.start]
      && Put(t, a.start, PutHeader(s.disk[a.start], [])) == PutAll(s, ws)
  {
    var lh := OnDisk(s.disk, a);
    var i := InstallWrites(lh, LogBlocks(s.view, a, |lh|));
    var ws := RecoverWrites(s.disk, a);
    RecoverInRange(s.disk, a);
    assert ws[..|ws| - 1] == i;
    assert a.Has(a.start);
    Untouched(s.disk, i, a.start);
    assert PutAll(s, i).pins == {};
  }

  lemma RecoverStart(s: Snap, a: Area)
    requires s.view == s.disk && s.pins == {} && |s.disk| <= UINT_MOD && GoodLog(s.disk, a)
    ensures Sane(s, a)
    ensures var lh := OnDisk(s.disk, a);
      var ws := InstallWrites(lh, LogBlocks(s.view, a, |lh|));
      Loggable(s.disk, a, lh) && |ws| == |lh| && PutSome(s, s, ws, 0)
  {
  }

  lemma RecoverOpen(s: Snap, a: Area)
    requires s.view == s.disk && s.pins == {} && |s.disk| <= UINT_MOD && GoodLog(s.disk, a)
    ensures var ws := RecoverWrites(s.disk, a);
      && InRange(s.disk, ws) && var t := PutAll(s, ws);
      && t.pins == {} && Open(t, a, []) && GoodLog(t.disk, a) && OnDisk(t.disk, a) == []
  {
    hide Apply, GetHeader, Word, PutHeader, InstallWrites;
    RecoverInstall(s, a);
    RecoverInRange(s.disk, a);
    var ws := RecoverWrites(s.disk, a);
    PartialRecovery(s.disk, a, |ws|);
    hide RecoverWrites;
    assert ws[..|ws|] == ws;
  }

  lemma RecoverAll(s: Snap, a: Area)
    requires a.start < |s.disk| && |s.view| == |s.disk| && GoodLog(s.disk, a)
    ensures var lh := OnDisk(s.disk, a); var i := InstallWrites(lh, LogBlocks(s.view, a, |lh|));
      |i| == |lh| && i[..|lh|] == i
  {
  }

  // ---- a commit that panics ----

  /** How many blocks three operations have logged, ten each, after n log_writes. */
  function Counts(n: nat): map<Gc.Op, nat> {
    map[0 := Min(n, 10), 1 := Max(0, Min(n, 20) - 10), 2 := Max(0, n - 20)]
  }

  function Homes(n: nat): seq<uint> { seq(Min(n, 30), i requires 0 <= i < Min(n, 30) => 40 + i) }

  lemma NextHome(n: nat)
    requires n < 30
    ensures var s, e := Gc.State(Homes(n), Counts(n), false), Gc.Log(n / 10, 40 + n);
      && Gc.Enabled(s, e) && !Gc.Panics(s, 32) && Gc.Next(s, e) == Gc.State(Homes(n + 1), Counts(n + 1), false)
  {
    assert Homes(n + 1) == Homes(n) + [40 + n];
  }

  lemma EndHomes()
    ensures Homes(0) == [] && Counts(0) == map[0 := 0, 1 := 0, 2 := 0]
    ensures |Homes(30)| == 30 && Counts(30).Keys == {0, 1, 2}
  {
  }

  lemma ZeroLog(d: Disk, a: Area)
    requires a.start < |d| && d[a.start] == ZeroBlock() && 1 <= a.size && a.start + a.size <= |d|
    ensures GoodLog(d, a) && OnDisk(d, a) == []
  {
    assert Word(d[a.start], 0) == 0;
  }

  /** A log area of 32 blocks, in which three operations within their budgets log thirty blocks: every buffer is
      pinned, and commit finds none for the first block of the log. */
  method Exhausted() returns (r: Outcome)
    ensures r.NoBuffer?
  {
    hide Links, PinnedIn, Open, GoodLog, OnDisk, Gc.Inv, HasSpare, Blocked, HeldFor, Views, View;
    var disk, a := seq(80, _ => ZeroBlock()), Area(2, 32);
    ZeroLog(disk, a);
    var bc := new Cache(disk);
    var log := new Log(bc, a);
    log.RecoverFromLog();
    log.FillCache();
    var pc;
    r, pc := log.Commit({});
  }
}
