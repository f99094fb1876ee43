/** begin_op, log_write, end_op and commit as a state machine: every interleaving of any number of
    file-system operations, each critical section one atomic step. */
module GroupCommit {
  import opened Bytes
  import opened RedoLog

  const MAXOPBLOCKS := 10

  type Op = nat

  /** blocks: log.lh.block[..n]. used: for each outstanding operation, how many blocks it added. */
  datatype State = State(blocks: seq<uint>, used: map<Op, nat>, committing: bool)

  datatype Event = Begin(op: Op) | Log(op: Op, block: uint) | End(op: Op) | CommitDone

  const BOOT := State([], map[], false)

  /** begin_op's admission test; an operation that fails it sleeps. */
  predicate Admits(s: State) {
    !s.committing && |s.blocks| + (|s.used| + 1) * MAXOPBLOCKS <= LOGSIZE
  }

  /** Log: the operation is outstanding and adds at most MAXOPBLOCKS blocks in all. */
  predicate Enabled(s: State, e: Event) {
    match e
    case Begin(op) => op !in s.used && Admits(s)
    case Log(op, b) => op in s.used && (b in s.blocks || s.used[op] < MAXOPBLOCKS)
    case End(op) => op in s.used
    case CommitDone => s.committing
  }

  function Next(s: State, e: Event): State
    requires Enabled(s, e)
  {
    match e
    case Begin(op) => s.(used := s.used[op := 0])
    case Log(op, b) =>
      if b in s.blocks then s   // absorbed
      else s.(blocks := s.blocks + [b], used := s.used[op := s.used[op] + 1])
    case End(op) =>
      var used := s.used - {op};
      s.(used := used, committing := used == map[])
    case CommitDone => s.(blocks := [], committing := false)
  }

  /** log_write's first test, made before it looks for the block. */
  predicate Panics(s: State, size: nat) {
    |s.blocks| >= LOGSIZE || |s.blocks| >= size - 1
  }

  /** What the outstanding operations may still add. */
  ghost function Spare(used: map<Op, nat>): int
    decreases |used|
  {
    if used == map[] then 0
    else
      var op :| op in used;
      MAXOPBLOCKS - used[op] + Spare(used - {op})
  }

  lemma {:induction false} SpareWithout(used: map<Op, nat>, op: Op)
    requires op in used
    ensures Spare(used) == MAXOPBLOCKS - used[op] + Spare(used - {op})
    decreases |used|
  {
    var p :| p in used && Spare(used) == MAXOPBLOCKS - used[p] + Spare(used - {p});
    if p != op {
      SpareWithout(used - {p}, op);
      SpareWithout(used - {op}, p);
      assert used - {p} - {op} == used - {op} - {p};
    }
  }

  lemma {:induction false} SpareBounds(used: map<Op, nat>)
    requires forall op :: op in used ==> used[op] <= MAXOPBLOCKS
    ensures 0 <= Spare(used) <= MAXOPBLOCKS * |used|
    decreases |used|
  {
    if used != map[] {
      var op :| op in used;
      SpareWithout(used, op);
      SpareBounds(used - {op});
    }
  }

  lemma SpareUpdate(used: map<Op, nat>, op: Op, n: nat)
    ensures Spare(used[op := n]) == MAXOPBLOCKS - n + Spare(used - {op})
  {
    SpareWithout(used[op := n], op);
    assert used[op := n] - {op} == used - {op};
  }

  /** The log has room for every block the outstanding operations may still add. */
  ghost predicate Inv(s: State) {
    && |s.blocks| + Spare(s.used) <= LOGSIZE
    && (forall op :: op in s.used ==> s.used[op] <= MAXOPBLOCKS)
    && (s.committing ==> s.used == map[])
    && Distinct(s.blocks)
    && (s.used == map[] && !s.committing ==> s.blocks == [])
  }

  lemma InvNext(s: State, e: Event)
    requires Inv(s) && Enabled(s, e)
    ensures Inv(Next(s, e))
  {
    SpareBounds(s.used);
    match e
    case Begin(op) =>
      SpareUpdate(s.used, op, 0);
      assert s.used - {op} == s.used;
    case Log(op, b) =>
      if b !in s.blocks {
        SpareUpdate(s.used, op, s.used[op] + 1);
        SpareWithout(s.used, op);
      }
    case End(op) =>
      SpareWithout(s.used, op);
    case CommitDone =>
  }

  // ---- whole runs ----

  ghost predicate Possible(run: seq<Event>, s: State)
    decreases |run|
  {
    run == [] || (Enabled(s, run[0]) && Possible(run[1..], Next(s, run[0])))
  }

  function After(run: seq<Event>, s: State): State
    requires Possible(run, s)
    decreases |run|
  {
    if run == [] then s else After(run[1..], Next(s, run[0]))
  }

  /** In every interleaving the reservation holds; commit runs with no operation outstanding, and
      while it runs nothing is logged and nobody is admitted; end_op never finds a commit running. */
  lemma {:induction false} EveryRun(run: seq<Event>, s: State)
    requires Inv(s) && Possible(run, s)
    ensures var t := After(run, s);
      && Inv(t)
      && (t.committing ==> !Admits(t) && forall op, b :: !Enabled(t, Log(op, b)) && !Enabled(t, End(op)))
    decreases |run|
  {
    if run != [] {
      InvNext(s, run[0]);
      EveryRun(run[1..], Next(s, run[0]));
    }
  }

  lemma SpareEmpty()
    ensures Inv(BOOT)
  {
    assert Spare(map[]) == 0;
  }

  /** With LOGSIZE blocks logged every outstanding operation has used its whole budget, so only a block
      that is logged already can be logged again. */
  lemma FullLog(s: State, op: Op)
    requires Inv(s) && op in s.used
    ensures |s.blocks| + MAXOPBLOCKS - s.used[op] <= LOGSIZE
  {
    SpareWithout(s.used, op);
    var rest := s.used - {op};
    assert forall o :: o in rest ==> rest[o] == s.used[o];
    SpareBounds(rest);
  }

  /** When log_write panics: for any call that any run from boot can make, exactly when as many blocks are
      logged as the smaller of LOGSIZE and the log area's data blocks. With an area of more than LOGSIZE
      blocks that is a log of exactly LOGSIZE blocks, every outstanding operation's budget used up, and a
      block that is in the log already. */
  lemma PanicsExactly(run: seq<Event>, op: Op, b: uint, size: nat)
    requires Possible(run, BOOT) && Enabled(After(run, BOOT), Log(op, b))
    ensures var s := After(run, BOOT);
      && (Panics(s, size) <==> |s.blocks| >= if size > LOGSIZE then LOGSIZE else size - 1)
      && (size > LOGSIZE && Panics(s, size) ==>
            |s.blocks| == LOGSIZE && b in s.blocks && forall o :: o in s.used ==> s.used[o] == MAXOPBLOCKS)
  {
    SpareEmpty();
    EveryRun(run, BOOT);
    var s := After(run, BOOT);
    forall o | o in s.used ensures |s.blocks| + MAXOPBLOCKS - s.used[o] <= LOGSIZE {
      FullLog(s, o);
    }
  }

  /** With an area of more than LOGSIZE blocks, logging a block that is not in the log never panics. */
  lemma NewBlockNeverPanics(run: seq<Event>, op: Op, b: uint, size: nat)
    requires Possible(run, BOOT) && Enabled(After(run, BOOT), Log(op, b))
    requires size > LOGSIZE && b !in After(run, BOOT).blocks
    ensures !Panics(After(run, BOOT), size)
  {
    PanicsExactly(run, op, b, size);
  }

  /** No log_write of the run panics. */
  ghost predicate Survives(run: seq<Event>, s: State, size: nat)
    requires Possible(run, s)
    decreases |run|
  {
    run == [] || ((run[0].Log? ==> !Panics(s, size)) && Survives(run[1..], Next(s, run[0]), size))
  }

  /** The panic can happen whatever the size of the log area: three operations that stay within their
      budgets fill it, and the next log_write of the third panics. With LOGSIZE blocks, which is what mkfs
      makes, or fewer, it is a write of a new block; with more, of one that is in the log already. */
  lemma PanicReachable(size: nat) returns (run: seq<Event>, b: uint)
    requires size >= 1
    ensures Possible(run, BOOT) && Survives(run, BOOT, size)
    ensures var s := After(run, BOOT);
      && Enabled(s, Log(2, b)) && Panics(s, size) && (b in s.blocks <==> size > LOGSIZE)
  {
    var s := State([], map[0 := 0, 1 := 0, 2 := 0], false);
    var n := if size > LOGSIZE then LOGSIZE else size - 1;
    var n0 := if n < 10 then n else 10;
    var n1 := if n < 10 then 0 else if n < 20 then n - 10 else 10;
    var n2 := n - n0 - n1;
    var r0 := Burst(s, 0, n0, size);
    var s1 := After(r0, s);
    var r1 := Burst(s1, 1, n1, size);
    var s2 := After(r1, s1);
    var r2 := Burst(s2, 2, n2, size);
    AfterConcat(r0, r1, s, size);
    AfterConcat(r0 + r1, r2, s, size);
    var a := Next(BOOT, Begin(0));
    var c := Next(a, Begin(1));
    assert Next(c, Begin(2)) == s;
    var run2 := FirstEvent(Begin(2), c, r0 + r1 + r2, size);
    var run1 := FirstEvent(Begin(1), a, run2, size);
    run := FirstEvent(Begin(0), BOOT, run1, size);
    b := if size > LOGSIZE then 0 else n;
    assert size > LOGSIZE ==> After(run, BOOT).blocks[0] == b;
  }

  lemma FirstEvent(e: Event, s: State, rest: seq<Event>, size: nat) returns (run: seq<Event>)
    requires !e.Log? && Enabled(s, e) && Possible(rest, Next(s, e)) && Survives(rest, Next(s, e), size)
    ensures Possible(run, s) && Survives(run, s, size) && After(run, s) == After(rest, Next(s, e))
  {
    run := [e] + rest;
    assert run[1..] == rest;
  }

  lemma {:induction false} AfterConcat(r: seq<Event>, r': seq<Event>, s: State, size: nat)
    requires Possible(r, s) && Possible(r', After(r, s))
    requires Survives(r, s, size) && Survives(r', After(r, s), size)
    ensures Possible(r + r', s) && After(r + r', s) == After(r', After(r, s)) && Survives(r + r', s, size)
    decreases |r|
  {
    hide Next, Enabled;
    if r == [] {
      assert r + r' == r';
    } else {
      AfterConcat(r[1..], r', Next(s, r[0]), size);
      assert (r + r')[1..] == r[1..] + r';
    }
  }

  /** n new blocks logged by one operation. */
  lemma {:induction false} Burst(s: State, op: Op, n: nat, size: nat) returns (run: seq<Event>)
    requires op in s.used && s.used[op] + n <= MAXOPBLOCKS
    requires forall i :: 0 <= i < |s.blocks| ==> s.blocks[i] == i
    requires |s.blocks| + n < size && |s.blocks| + n <= LOGSIZE
    ensures Possible(run, s) && Survives(run, s, size)
    ensures var t := After(run, s);
      && |t.blocks| == |s.blocks| + n && (forall i :: 0 <= i < |t.blocks| ==> t.blocks[i] == i)
      && t.used == s.used[op := s.used[op] + n]
    decreases n
  {
    hide Next, Enabled;
    if n == 0 {
      run := [];
    } else {
      var e := Log(op, |s.blocks|);
      LogNew(s, op);
      var rest := Burst(Next(s, e), op, n - 1, size);
      run := [e] + rest;
      assert run[1..] == rest;
    }
  }

  lemma LogNew(s: State, op: Op)
    requires op in s.used && s.used[op] < MAXOPBLOCKS && |s.blocks| < LOGSIZE
    requires forall i :: 0 <= i < |s.blocks| ==> s.blocks[i] == i
    ensures var e := Log(op, |s.blocks|);
      && Enabled(s, e)
      && Next(s, e) == s.(blocks := s.blocks + [|s.blocks| as uint], used := s.used[op := s.used[op] + 1])
  {
  }
}
