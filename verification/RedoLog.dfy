/** The on-disk redo log as a value: the exact list of block writes that commit
    and recovery perform, and what a crash between any two of them leaves behind.
    Log.dfy proves that the kernel's methods perform exactly these lists. */
module RedoLog {
  import opened Bytes

  const LOGSIZE := 30

  /** One atomic block write. */
  datatype Write = Write(blockno: nat, data: Block)

  ghost predicate InRange(d: Disk, ws: seq<Write>) {
    forall i :: 0 <= i < |ws| ==> ws[i].blockno < |d|
  }

  function Apply(d: Disk, ws: seq<Write>): (r: Disk)
    requires InRange(d, ws)
    ensures |r| == |d|
  {
    if ws == [] then d
    else
      var w := ws[|ws| - 1];
      Apply(d, ws[..|ws| - 1])[w.blockno := w.data]
  }

  lemma {:induction false} ApplyConcat(d: Disk, a: seq<Write>, b: seq<Write>)
    requires InRange(d, a) && InRange(d, b)
    ensures InRange(d, a + b) && Apply(d, a + b) == Apply(Apply(d, a), b)
  {
    if b == [] {
      assert a + b == a;
    } else {
      ApplyConcat(d, a, b[..|b| - 1]);
      assert (a + b)[..|a + b| - 1] == a + b[..|b| - 1];
    }
  }

  lemma PrefixOf<T>(s: seq<T>, m: nat, k: nat)
    requires m <= k <= |s|
    ensures s[..k] == s[..m] + s[m..][..k - m] && s[..k][..m] == s[..m]
  {
  }

  // ---- the header block ----

  /** write_head: word 0 becomes n, words 1..n the block numbers; the rest of the block is kept. */
  function PutHeader(h: Block, blocks: seq<uint>): (r: Block)
    requires |blocks| <= LOGSIZE
  {
    PutNumbers(PutWord(h, 0, |blocks|), blocks)
  }

  function PutNumbers(h: Block, blocks: seq<uint>): Block
    requires |blocks| <= LOGSIZE
  {
    if blocks == [] then h
    else PutWord(PutNumbers(h, blocks[..|blocks| - 1]), |blocks|, blocks[|blocks| - 1])
  }

  function GetHeader(h: Block): (r: seq<uint>)
    requires Word(h, 0) <= LOGSIZE
  {
    seq(Word(h, 0), i requires 0 <= i < Word(h, 0) => Word(h, i + 1))
  }

  lemma {:induction false} NumbersWords(h: Block, blocks: seq<uint>, j: nat)
    requires |blocks| <= LOGSIZE && j < NWORDS
    ensures Word(PutNumbers(h, blocks), j) == if 1 <= j <= |blocks| then blocks[j - 1] else Word(h, j)
  {
    if blocks != [] {
      var short := blocks[..|blocks| - 1];
      NumbersWords(h, short, j);
      WordOfPut(PutNumbers(h, short), |blocks|, blocks[|blocks| - 1], j);
    }
  }

  /** The header on disk: the count, the block numbers, and then what the block held before. */
  lemma HeaderWord(h: Block, blocks: seq<uint>, j: nat)
    requires |blocks| <= LOGSIZE && j < NWORDS
    ensures Word(PutHeader(h, blocks), j) ==
      if j == 0 then |blocks| else if j <= |blocks| then blocks[j - 1] else Word(h, j)
  {
    WordOfPut(h, 0, |blocks|, j);
    NumbersWords(PutWord(h, 0, |blocks|), blocks, j);
  }

  /** read_head undoes write_head, whatever the header block held before. */
  lemma HeaderRoundTrip(h: Block, blocks: seq<uint>)
    requires |blocks| <= LOGSIZE
    ensures Word(PutHeader(h, blocks), 0) == |blocks|
    ensures GetHeader(PutHeader(h, blocks)) == blocks
  {
    HeaderWord(h, blocks, 0);
    forall i | 0 <= i < |blocks| ensures GetHeader(PutHeader(h, blocks))[i] == blocks[i] {
      HeaderWord(h, blocks, i + 1);
    }
  }

  // ---- the log area ----

  /** Where the log lives: header at start, then size - 1 data blocks. */
  datatype Area = Area(start: nat, size: nat) {
    predicate Has(b: nat) { start <= b < start + size }
    function Slot(i: nat): nat { start + 1 + i }
  }

  ghost predicate Distinct(s: seq<uint>) {
    forall i, j :: 0 <= i < j < |s| ==> s[i] != s[j]
  }

  /** A list of home blocks that fits the log. */
  ghost predicate Loggable(d: Disk, a: Area, blocks: seq<uint>) {
    && 1 <= a.size && a.start + a.size <= |d|
    && |blocks| <= LOGSIZE && |blocks| <= a.size - 1
    && Distinct(blocks)
    && forall i :: 0 <= i < |blocks| ==> blocks[i] < |d| && !a.Has(blocks[i])
  }

  function OnDisk(d: Disk, a: Area): seq<uint>
    requires a.start < |d| && Word(d[a.start], 0) <= LOGSIZE
  {
    GetHeader(d[a.start])
  }

  ghost predicate GoodLog(d: Disk, a: Area) {
    && a.start < |d| && Word(d[a.start], 0) <= LOGSIZE
    && Loggable(d, a, OnDisk(d, a))
  }

  /** The block that home block b stands for: its logged copy if the header names it. */
  ghost function Committed(d: Disk, a: Area, b: nat): Block
    requires GoodLog(d, a) && b < |d|
  {
    if exists i :: 0 <= i < |OnDisk(d, a)| && OnDisk(d, a)[i] == b
    then var i :| 0 <= i < |OnDisk(d, a)| && OnDisk(d, a)[i] == b; d[a.Slot(i)]
    else d[b]
  }

  // ---- the write lists ----

  /** write_log */
  function LogWrites(a: Area, data: seq<Block>): seq<Write> {
    seq(|data|, i requires 0 <= i < |data| => Write(a.Slot(i), data[i]))
  }

  /** install_trans */
  function InstallWrites(blocks: seq<uint>, data: seq<Block>): seq<Write>
    requires |blocks| == |data|
  {
    seq(|data|, i requires 0 <= i < |data| => Write(blocks[i], data[i]))
  }

  /** commit, with at least one logged block */
  function CommitWrites(h: Block, a: Area, blocks: seq<uint>, data: seq<Block>): seq<Write>
    requires |blocks| == |data| <= LOGSIZE
  {
    var h1 := PutHeader(h, blocks);
    LogWrites(a, data) + [Write(a.start, h1)]
    + InstallWrites(blocks, data) + [Write(a.start, PutHeader(h1, []))]
  }

  /** The kth write of a commit of n blocks: n copies into the log after its header, the header naming them, n
      installations at home, and the header again with a count of zero. */
  lemma CommitWriteAt(h: Block, a: Area, blocks: seq<uint>, data: seq<Block>, k: nat)
    requires |blocks| == |data| <= LOGSIZE && k < 2 * |blocks| + 2
    ensures var n := |blocks|; var ws := CommitWrites(h, a, blocks, data);
      && |ws| == 2 * n + 2
      && (k < n ==> ws[k] == Write(a.start + 1 + k, data[k]))
      && (n < k <= 2 * n ==> ws[k] == Write(blocks[k - n - 1], data[k - n - 1]))
      && (k == n || k == 2 * n + 1 ==>
          && ws[k].blockno == a.start && Word(ws[k].data, 0) == (if k == n then n else 0)
          && (forall i :: 0 <= i < n ==> Word(ws[k].data, i + 1) == blocks[i]))
  {
    var n := |blocks|;
    var h1 := PutHeader(h, blocks);
    HeaderWord(h, blocks, 0);
    HeaderWord(h1, [], 0);
    forall i | 0 <= i < n ensures Word(h1, i + 1) == Word(PutHeader(h1, []), i + 1) == blocks[i] {
      HeaderWord(h, blocks, i + 1);
      HeaderWord(h1, [], i + 1);
    }
  }

  /** recover_from_log, reading everything from the disk it finds */
  function RecoverWrites(d: Disk, a: Area): seq<Write>
    requires GoodLog(d, a)
  {
    InstallWrites(OnDisk(d, a), LogBlocks(d, a, |OnDisk(d, a)|)) + [Write(a.start, PutHeader(d[a.start], []))]
  }

  function LogBlocks(d: Disk, a: Area, n: nat): (r: seq<Block>)
    requires a.start + n < |d|
    ensures |r| == n
  {
    d[a.start + 1..a.start + 1 + n]
  }

  // ---- what a prefix of each list leaves on disk ----

  /** The first k blocks of a list of distinct targets written over d. */
  ghost predicate Overwritten(d: Disk, r: Disk, targets: seq<nat>, data: seq<Block>, k: nat)
    requires k <= |targets| == |data|
  {
    && |r| == |d|
    && (forall i :: 0 <= i < k ==> targets[i] < |r| && r[targets[i]] == data[i])
    && (forall b :: 0 <= b < |d| && (forall i :: 0 <= i < k ==> targets[i] != b) ==> r[b] == d[b])
  }

  lemma {:induction false} DistinctWrites(d: Disk, ws: seq<Write>, targets: seq<nat>, data: seq<Block>, k: nat)
    requires k <= |ws| == |targets| == |data| && InRange(d, ws)
    requires forall i :: 0 <= i < |ws| ==> ws[i] == Write(targets[i], data[i])
    requires forall i, j :: 0 <= i < j < |targets| ==> targets[i] != targets[j]
    ensures InRange(d, ws[..k]) && Overwritten(d, Apply(d, ws[..k]), targets, data, k)
  {
    if k > 0 {
      DistinctWrites(d, ws, targets, data, k - 1);
      assert ws[..k][..k - 1] == ws[..k - 1];
    }
  }

  /** A header block with no blocks. */
  lemma EmptyHeader(h: Block)
    ensures Word(PutHeader(h, []), 0) == 0 && GetHeader(PutHeader(h, [])) == []
  {
    HeaderRoundTrip(h, []);
  }

  lemma CommittedIs(d: Disk, a: Area, i: nat)
    requires GoodLog(d, a) && i < |OnDisk(d, a)|
    ensures Committed(d, a, OnDisk(d, a)[i]) == d[a.Slot(i)]
  {
  }

  // ---- recovery ----

  lemma RecoverInRange(d: Disk, a: Area)
    requires GoodLog(d, a)
    ensures InRange(d, RecoverWrites(d, a)) && |RecoverWrites(d, a)| == |OnDisk(d, a)| + 1
  {
  }

  /** r is d as far as a reboot can tell: every home block stands for the same bytes. */
  ghost predicate SameCommitted(d: Disk, r: Disk, a: Area)
    requires GoodLog(d, a)
  {
    |r| == |d| && GoodLog(r, a)
    && forall b :: 0 <= b < |d| && !a.Has(b) ==> Committed(r, a, b) == Committed(d, a, b)
  }

  /** r has an empty log, and its home blocks are the committed blocks of d. */
  ghost predicate Recovered(d: Disk, r: Disk, a: Area)
    requires GoodLog(d, a)
  {
    |r| == |d| && GoodLog(r, a) && OnDisk(r, a) == []
    && forall b :: 0 <= b < |d| && !a.Has(b) ==> r[b] == Committed(d, a, b)
  }

  /** The home blocks named by the header, partly installed, with the log area untouched. */
  ghost predicate Installed(d: Disk, r: Disk, a: Area, k: nat)
    requires GoodLog(d, a) && k <= |OnDisk(d, a)|
  {
    Overwritten(d, r, OnDisk(d, a), LogBlocks(d, a, |OnDisk(d, a)|), k)
    && forall b :: 0 <= b < |d| && a.Has(b) ==> r[b] == d[b]
  }

  lemma InstallPrefix(d: Disk, a: Area, k: nat)
    requires GoodLog(d, a) && k <= |OnDisk(d, a)|
    ensures InRange(d, RecoverWrites(d, a)[..k])
    ensures Installed(d, Apply(d, RecoverWrites(d, a)[..k]), a, k)
  {
    var blocks := OnDisk(d, a);
    var data := LogBlocks(d, a, |blocks|);
    var inst := InstallWrites(blocks, data);
    RecoverInRange(d, a);
    DistinctWrites(d, inst, blocks, data, k);
    assert RecoverWrites(d, a)[..k] == inst[..k];
  }

  lemma InstalledGood(d: Disk, r: Disk, a: Area, k: nat)
    requires GoodLog(d, a) && k <= |OnDisk(d, a)| && Installed(d, r, a, k)
    ensures r[a.start] == d[a.start] && GoodLog(r, a) && OnDisk(r, a) == OnDisk(d, a)
  {
    assert a.Has(a.start);
  }

  lemma InstalledBlock(d: Disk, r: Disk, a: Area, k: nat, b: nat)
    requires GoodLog(d, a) && k <= |OnDisk(d, a)| && Installed(d, r, a, k)
    requires b < |d| && !a.Has(b)
    ensures GoodLog(r, a) && Committed(r, a, b) == Committed(d, a, b)
    ensures k == |OnDisk(d, a)| ==> r[b] == Committed(d, a, b)
  {
    var blocks := OnDisk(d, a);
    InstalledGood(d, r, a, k);
    if i :| 0 <= i < |blocks| && blocks[i] == b {
      CommittedIs(d, a, i);
      CommittedIs(r, a, i);
      assert a.Has(a.Slot(i));
    }
  }

  lemma PartialInstall(d: Disk, a: Area, k: nat)
    requires GoodLog(d, a) && k <= |OnDisk(d, a)|
    ensures InRange(d, RecoverWrites(d, a)[..k])
    ensures var r := Apply(d, RecoverWrites(d, a)[..k]);
      && SameCommitted(d, r, a) && r[a.start] == d[a.start]
      && (k == |OnDisk(d, a)| ==> forall b :: 0 <= b < |d| && !a.Has(b) ==> r[b] == Committed(d, a, b))
  {
    InstallPrefix(d, a, k);
    var r := Apply(d, RecoverWrites(d, a)[..k]);
    InstalledGood(d, r, a, k);
    forall b | 0 <= b < |d| && !a.Has(b)
      ensures Committed(r, a, b) == Committed(d, a, b) && (k == |OnDisk(d, a)| ==> r[b] == Committed(d, a, b))
    {
      InstalledBlock(d, r, a, k, b);
    }
  }

  /** Stopping recovery after any number of writes loses nothing, and a recovery that
      completes has installed every committed block and emptied the log. */
  lemma PartialRecovery(d: Disk, a: Area, k: nat)
    requires GoodLog(d, a) && k <= |RecoverWrites(d, a)|
    ensures InRange(d, RecoverWrites(d, a)[..k])
    ensures var r := Apply(d, RecoverWrites(d, a)[..k]);
      && SameCommitted(d, r, a) && (k == |RecoverWrites(d, a)| ==> Recovered(d, r, a))
  {
    var n := |OnDisk(d, a)|;
    var all := RecoverWrites(d, a);
    RecoverInRange(d, a);
    if k <= n {
      PartialInstall(d, a, k);
    } else {
      PartialInstall(d, a, n);
      assert all[..k][..n] == all[..n];
      EmptyHeader(d[a.start]);
    }
  }

  /** Any number of recoveries, the j-th one stopped by a crash after ks[j] writes. */
  function Restarts(d: Disk, a: Area, ks: seq<nat>): (r: Disk)
    requires GoodLog(d, a)
    ensures SameCommitted(d, r, a)
    decreases |ks|
  {
    if ks == [] then d
    else
      var ws := RecoverWrites(d, a);
      var k := if ks[0] < |ws| then ks[0] else |ws|;
      PartialRecovery(d, a, k);
      Restarts(Apply(d, ws[..k]), a, ks[1..])
  }

  /** Reboot: crashed recoveries, then one that completes. */
  function Reboot(d: Disk, a: Area, ks: seq<nat>): (r: Disk)
    requires GoodLog(d, a)
    ensures Recovered(d, r, a)
  {
    var d1 := Restarts(d, a, ks);
    var ws := RecoverWrites(d1, a);
    PartialRecovery(d1, a, |ws|);
    assert ws[..|ws|] == ws;
    Apply(d1, ws)
  }

  // ---- commit ----

  lemma CommitInRange(d: Disk, a: Area, blocks: seq<uint>, data: seq<Block>)
    requires Loggable(d, a, blocks) && |data| == |blocks|
    ensures InRange(d, CommitWrites(d[a.start], a, blocks, data))
    ensures |CommitWrites(d[a.start], a, blocks, data)| == 2 * |blocks| + 2
  {
  }

  /** The home block b after the transaction, given its value before. */
  ghost function Updated(blocks: seq<uint>, data: seq<Block>, b: nat, before: Block): Block
    requires |blocks| == |data|
  {
    if exists i :: 0 <= i < |blocks| && blocks[i] == b
    then var i :| 0 <= i < |blocks| && blocks[i] == b; data[i]
    else before
  }

  lemma UpdatedIs(blocks: seq<uint>, data: seq<Block>, i: nat, before: Block)
    requires i < |blocks| == |data| && Distinct(blocks)
    ensures Updated(blocks, data, blocks[i], before) == data[i]
  {
  }

  /** Before the header write (the first n writes) the header on disk still says "empty". */
  lemma CommitBeforeHeader(d: Disk, a: Area, blocks: seq<uint>, data: seq<Block>, k: nat)
    requires GoodLog(d, a) && OnDisk(d, a) == [] && Loggable(d, a, blocks) && |data| == |blocks| && k <= |blocks|
    ensures InRange(d, CommitWrites(d[a.start], a, blocks, data)[..k])
    ensures var r := Apply(d, CommitWrites(d[a.start], a, blocks, data)[..k]);
      && |r| == |d| && GoodLog(r, a) && OnDisk(r, a) == []
      && (forall b :: 0 <= b < |d| && !a.Has(b) ==> r[b] == d[b])
      && r[a.start] == d[a.start]
      && (forall i :: 0 <= i < k ==> r[a.Slot(i)] == data[i])
  {
    CommitInRange(d, a, blocks, data);
    var ws := LogWrites(a, data);
    var targets := seq(|data|, i requires 0 <= i < |data| => a.Slot(i));
    assert CommitWrites(d[a.start], a, blocks, data)[..k] == ws[..k];
    DistinctWrites(d, ws, targets, data, k);
    var r := Apply(d, ws[..k]);
    forall b | 0 <= b < |d| && (!a.Has(b) || b == a.start) ensures r[b] == d[b] {
      assert forall i :: 0 <= i < k ==> targets[i] != b;
    }
    assert forall i :: 0 <= i < k ==> r[targets[i]] == data[i];
  }

  /** r's home blocks stand for the new values. */
  ghost predicate AllNew(d: Disk, r: Disk, a: Area, blocks: seq<uint>, data: seq<Block>)
    requires |blocks| == |data|
  {
    |r| == |d| && GoodLog(r, a)
    && forall b :: 0 <= b < |d| && !a.Has(b) ==> Committed(r, a, b) == Updated(blocks, data, b, d[b])
  }

  /** The disk just after the header write. */
  ghost predicate HeaderWritten(d: Disk, r: Disk, a: Area, blocks: seq<uint>, data: seq<Block>)
    requires Loggable(d, a, blocks) && |data| == |blocks|
  {
    |r| == |d| && r[a.start] == PutHeader(d[a.start], blocks)
    && LogBlocks(r, a, |blocks|) == data
    && forall b :: 0 <= b < |d| && !a.Has(b) ==> r[b] == d[b]
  }

  lemma CommitAtHeader(d: Disk, a: Area, blocks: seq<uint>, data: seq<Block>)
    requires GoodLog(d, a) && OnDisk(d, a) == [] && Loggable(d, a, blocks) && |data| == |blocks|
    ensures InRange(d, CommitWrites(d[a.start], a, blocks, data)[..|blocks| + 1])
    ensures HeaderWritten(d, Apply(d, CommitWrites(d[a.start], a, blocks, data)[..|blocks| + 1]), a, blocks, data)
  {
    hide Word, PutWord, GetHeader, PutHeader, InstallWrites;
    var n := |blocks|;
    var all := CommitWrites(d[a.start], a, blocks, data);
    CommitInRange(d, a, blocks, data);
    CommitBeforeHeader(d, a, blocks, data, n);
    PrefixOf(all, n, n + 1);
    assert all[..n + 1][n] == Write(a.start, PutHeader(d[a.start], blocks));
    SlotsAre(Apply(d, all[..n + 1]), a, data);
  }

  lemma SlotsAre(r: Disk, a: Area, data: seq<Block>)
    requires a.start + |data| < |r| && forall i :: 0 <= i < |data| ==> r[a.Slot(i)] == data[i]
    ensures LogBlocks(r, a, |data|) == data
  {
  }

  lemma HeaderGood(d: Disk, r: Disk, a: Area, blocks: seq<uint>, data: seq<Block>)
    requires Loggable(d, a, blocks) && |data| == |blocks| && HeaderWritten(d, r, a, blocks, data)
    ensures GoodLog(r, a) && OnDisk(r, a) == blocks
  {
    HeaderRoundTrip(d[a.start], blocks);
  }

  lemma HeaderBlock(d: Disk, r: Disk, a: Area, blocks: seq<uint>, data: seq<Block>, b: nat)
    requires Loggable(d, a, blocks) && |data| == |blocks| && HeaderWritten(d, r, a, blocks, data)
    requires b < |d| && !a.Has(b)
    ensures GoodLog(r, a) && Committed(r, a, b) == Updated(blocks, data, b, d[b])
  {
    HeaderGood(d, r, a, blocks, data);
    if i :| 0 <= i < |blocks| && blocks[i] == b {
      CommittedIs(r, a, i);
      UpdatedIs(blocks, data, i, d[b]);
      assert LogBlocks(r, a, |blocks|)[i] == r[a.Slot(i)];
    }
  }

  /** After the header write, the rest of commit's list is recovery's own list. */
  lemma CommitTail(d: Disk, r: Disk, a: Area, blocks: seq<uint>, data: seq<Block>)
    requires Loggable(d, a, blocks) && |data| == |blocks| && HeaderWritten(d, r, a, blocks, data)
    ensures GoodLog(r, a) && CommitWrites(d[a.start], a, blocks, data)[|blocks| + 1..] == RecoverWrites(r, a)
  {
    hide Word, PutWord;
    HeaderGood(d, r, a, blocks, data);
  }

  /** The header write is the commit point: from it on, every home block's committed value
      is the new one. */
  lemma CommitAfterHeader(d: Disk, a: Area, blocks: seq<uint>, data: seq<Block>, k: nat)
    requires GoodLog(d, a) && OnDisk(d, a) == [] && Loggable(d, a, blocks) && |data| == |blocks|
    requires |blocks| < k <= 2 * |blocks| + 2
    ensures InRange(d, CommitWrites(d[a.start], a, blocks, data)[..k])
    ensures var r := Apply(d, CommitWrites(d[a.start], a, blocks, data)[..k]);
      AllNew(d, r, a, blocks, data) && (k == 2 * |blocks| + 2 ==> OnDisk(r, a) == [])
  {
    hide Word, GetHeader, PutHeader, LogWrites, InstallWrites, CommitWrites, RecoverWrites, HeaderWritten;
    hide Apply, Updated, LogBlocks;
    var n := |blocks|;
    var all := CommitWrites(d[a.start], a, blocks, data);
    CommitInRange(d, a, blocks, data);
    CommitAtHeader(d, a, blocks, data);
    var d2 := Apply(d, all[..n + 1]);
    CommitTail(d, d2, a, blocks, data);
    var rest := all[n + 1..];
    PrefixOf(all, n + 1, k);
    RecoverInRange(d2, a);
    ApplyConcat(d, all[..n + 1], rest[..k - n - 1]);
    PartialRecovery(d2, a, k - n - 1);
    var r := Apply(d, all[..k]);
    forall b | 0 <= b < |d| && !a.Has(b) ensures Committed(r, a, b) == Updated(blocks, data, b, d[b]) {
      HeaderBlock(d, d2, a, blocks, data, b);
    }
  }

  /** Crash atomicity. A commit stopped after any k of its writes, followed by any number of
      recoveries each stopped anywhere, followed by a recovery that completes, leaves the home
      blocks either all old (k at most n: the header was not written) or all new (k above n). */
  lemma CrashAtomicity(d: Disk, a: Area, blocks: seq<uint>, data: seq<Block>, k: nat, ks: seq<nat>)
    requires GoodLog(d, a) && OnDisk(d, a) == [] && Loggable(d, a, blocks) && |data| == |blocks|
    requires k <= 2 * |blocks| + 2
    ensures InRange(d, CommitWrites(d[a.start], a, blocks, data)[..k])
    ensures var crashed := Apply(d, CommitWrites(d[a.start], a, blocks, data)[..k]);
      && GoodLog(crashed, a)
      && forall b :: 0 <= b < |d| && !a.Has(b) ==>
           Reboot(crashed, a, ks)[b] == if k <= |blocks| then d[b] else Updated(blocks, data, b, d[b])
  {
    hide Word, GetHeader, PutHeader, LogWrites, InstallWrites;
    if k <= |blocks| {
      CommitBeforeHeader(d, a, blocks, data, k);
    } else {
      CommitAfterHeader(d, a, blocks, data, k);
    }
  }

  // ---- whole histories ----

  /** One transaction of a history: run to the end, or crashed after k writes and rebooted. */
  datatype Txn = Txn(blocks: seq<uint>, data: seq<Block>, crash: bool, k: nat, restarts: seq<nat>)

  ghost predicate Fits(t: Txn, d: Disk, a: Area) {
    Loggable(d, a, t.blocks) && |t.data| == |t.blocks| && (t.crash ==> t.k <= 2 * |t.blocks| + 2)
  }

  /** The disk after a history. */
  function Play(d: Disk, a: Area, h: seq<Txn>): (r: Disk)
    requires GoodLog(d, a) && OnDisk(d, a) == []
    requires forall i :: 0 <= i < |h| ==> Fits(h[i], d, a)
    ensures |r| == |d| && GoodLog(r, a) && OnDisk(r, a) == []
  {
    if h == [] then d
    else
      var d1 := Play(d, a, h[..|h| - 1]);
      var t := h[|h| - 1];
      assert Fits(t, d1, a) by { assert Fits(t, d, a); }
      var ws := CommitWrites(d1[a.start], a, t.blocks, t.data);
      var n := if t.crash then t.k else 2 * |t.blocks| + 2;
      CrashAtomicity(d1, a, t.blocks, t.data, n, t.restarts);
      if t.crash then Reboot(Apply(d1, ws[..n]), a, t.restarts)
      else
        CommitAfterHeader(d1, a, t.blocks, t.data, n);
        Apply(d1, ws[..n])
  }

  /** The home block b after a history, in which a transaction counts when its header was written. */
  ghost function Expected(d: Disk, h: seq<Txn>, b: nat): Block
    requires b < |d| && forall i :: 0 <= i < |h| ==> |h[i].blocks| == |h[i].data|
  {
    if h == [] then d[b]
    else
      var t := h[|h| - 1];
      var before := Expected(d, h[..|h| - 1], b);
      if t.crash && t.k <= |t.blocks| then before else Updated(t.blocks, t.data, b, before)
  }

  /** Over every history of transactions, crashes and reboots, each home block holds exactly
      what the committed transactions, in order, wrote to it. */
  lemma {:induction false} HistoryAtomicity(d: Disk, a: Area, h: seq<Txn>, b: nat)
    requires GoodLog(d, a) && OnDisk(d, a) == []
    requires forall i :: 0 <= i < |h| ==> Fits(h[i], d, a)
    requires b < |d| && !a.Has(b)
    ensures Play(d, a, h)[b] == Expected(d, h, b)
  {
    hide Word, GetHeader, PutHeader, LogWrites, InstallWrites, Apply, OnDisk, RecoverWrites, Reboot;
    if h != [] {
      var h' := h[..|h| - 1];
      HistoryAtomicity(d, a, h', b);
      var d1 := Play(d, a, h');
      var t := h[|h| - 1];
      assert Fits(t, d1, a) by { assert Fits(t, d, a); }
      if t.crash {
        CrashAtomicity(d1, a, t.blocks, t.data, t.k, t.restarts);
      } else {
        CommitAfterHeader(d1, a, t.blocks, t.data, 2 * |t.blocks| + 2);
      }
    }
  }
}
