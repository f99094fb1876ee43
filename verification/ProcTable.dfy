/** proc.c's operations on the process table in place, each proved to be the steps of Processes. */
module ProcTable {
  import opened Processes

  /** What one scan of wait or wait_stat comes to. */
  datatype Outcome = Reported(pid: nat, status: int, perf: Perf) | NoChildren | Asleep

  datatype Perf = Perf(ctime: int, ttime: int, stime: int, retime: int, rutime: int)

  const TICKS := 0      // the channel &ticks

  class Table {
    const proc: array<Proc>
    var initproc: nat
    var nextpid: nat
    var ticks: int
    ghost var forking: map<nat, nat>
    ghost var exits: map<nat, int>
    ghost var reaped: map<nat, int>

    ghost function Abs(): State
      reads this, proc
    {
      State(proc[..], initproc, nextpid, ticks, forking, exits, reaped)
    }

    /** wakeup1 */
    method Wakeup1(chan: Chan)
      modifies proc
      ensures proc[..] == WokenAll(old(proc[..]), chan)
      ensures forall k :: 0 <= k < proc.Length ==> var p := old(proc[k]);
        proc[k] == if p.state == Sleeping && p.chan == chan then p.(state := Runnable) else p
    {
      var i := 0;
      while i < proc.Length
        invariant 0 <= i <= proc.Length
        invariant forall k :: 0 <= k < i ==> proc[k] == Woken(old(proc[k]), chan)
        invariant forall k :: i <= k < proc.Length ==> proc[k] == old(proc[k])
      {
        if proc[i].state == Sleeping && proc[i].chan == chan {
          proc[i] := proc[i].(state := Runnable);
        }
        i := i + 1;
      }
    }

    /** updatePerformanceFields */
    method UpdatePerformanceFields()
      modifies proc
      ensures proc[..] == TickedAll(old(proc[..]))
      ensures forall k :: 0 <= k < proc.Length ==> var p := old(proc[k]);
        proc[k] == p.(rutime := p.rutime + if p.state == Running then 1 else 0,
                      stime := p.stime + if p.state == Sleeping then 1 else 0,
                      retime := p.retime + if p.state == Runnable then 1 else 0)
    {
      var i := 0;
      while i < proc.Length
        invariant 0 <= i <= proc.Length
        invariant forall k :: 0 <= k < i ==> proc[k] == Ticked(old(proc[k]))
        invariant forall k :: i <= k < proc.Length ==> proc[k] == old(proc[k])
      {
        if proc[i].state == Running {
          proc[i] := proc[i].(rutime := proc[i].rutime + 1);
        } else if proc[i].state == Sleeping {
          proc[i] := proc[i].(stime := proc[i].stime + 1);
        } else if proc[i].state == Runnable {
          proc[i] := proc[i].(retime := proc[i].retime + 1);
        }
        i := i + 1;
      }
    }

    /** The timer interrupt on cpu 0. */
    method TimerTick()
      modifies this, proc
      ensures Abs() == Step(Step(old(Abs()), Tick), Wakeup(TICKS))
      ensures ticks == old(ticks) + 1
      ensures forall k :: 0 <= k < proc.Length ==> var p := old(proc[k]);
        proc[k] == p.(state := if p.state == Sleeping && p.chan == Other(TICKS) then Runnable else p.state,
                      rutime := p.rutime + if p.state == Running then 1 else 0,
                      stime := p.stime + if p.state == Sleeping then 1 else 0,
                      retime := p.retime + if p.state == Runnable then 1 else 0)
    {
      ticks := ticks + 1;
      UpdatePerformanceFields();
      Wakeup1(Other(TICKS));
    }

    /** kill */
    method Kill(pid: nat) returns (r: int)
      modifies proc
      ensures Abs() == Step(old(Abs()), Event.Kill(pid))
      ensures r == if FindPid(old(proc[..]), pid, 0) < proc.Length then 0 else -1
      ensures r == -1 ==> proc[..] == old(proc[..]) && forall k :: 0 <= k < proc.Length ==> proc[k].pid != pid
      ensures r == 0 ==> exists i :: 0 <= i < proc.Length && KilledAt(old(proc[..]), proc[..], pid, ticks, i)
    {
      var i := 0;
      while i < proc.Length
        invariant 0 <= i <= proc.Length && proc[..] == old(proc[..])
        invariant FindPid(proc[..], pid, i) == FindPid(proc[..], pid, 0)
      {
        if proc[i].pid == pid {
          ghost var ps := proc[..];
          proc[i] := proc[i].(killed := true, ttime := ticks);
          if proc[i].state == Sleeping {
            proc[i] := proc[i].(state := Runnable);
          }
          assert proc[..] == ps[i := Killed(ps[i], ticks)];
          assert FindPid(ps, pid, 0) == i;
          assert KilledAt(ps, proc[..], pid, ticks, i);
          return 0;
        }
        i := i + 1;
      }
      r := -1;
    }

    /** allocproc by process p; -1 if the table is full. */
    method Allocproc(p: nat) returns (c: int)
      requires Enabled(Abs(), ForkBegin(p))
      modifies this, proc
      ensures Abs() == Step(old(Abs()), ForkBegin(p))
      ensures var u := FindUnused(old(proc[..]), 0); c == if u < proc.Length then u else -1
      ensures c == -1 ==> forall k :: 0 <= k < proc.Length ==> proc[k] == old(proc[k]) && proc[k].state != Unused
      ensures c != -1 ==>
        && 0 <= c < proc.Length && old(proc[c]).state == Unused && nextpid == old(nextpid) + 1
        && proc[c] == old(proc[c]).(state := Embryo, pid := old(nextpid))
        && forall k :: 0 <= k < proc.Length && k != c ==> proc[k] == old(proc[k])
    {
      var i := 0;
      while i < proc.Length
        invariant 0 <= i <= proc.Length && Abs() == old(Abs())
        invariant FindUnused(proc[..], i) == FindUnused(proc[..], 0)
      {
        if proc[i].state == Unused {
          ghost var ps := proc[..];
          proc[i] := proc[i].(state := Embryo, pid := nextpid);
          assert proc[..] == ps[i := ps[i].(state := Embryo, pid := nextpid)];
          nextpid := nextpid + 1;
          forking := forking[i := p];
          return i;
        }
        i := i + 1;
      }
      c := -1;
    }

    /** The end of fork: the embryo in slot c gets its parent p, and then runs. */
    method Begin(p: nat, c: nat)
      requires c in forking && forking[c] == p && Enabled(Abs(), ForkLink(c)) &&
        Enabled(Step(Abs(), ForkLink(c)), ForkEnd(c))
      modifies this`forking, proc
      ensures Abs() == Step(Step(old(Abs()), ForkLink(c)), ForkEnd(c)) && proc[c].pid == old(proc[c].pid)
    {
      ghost var ps := proc[..];
      proc[c] := proc[c].(parent := p);
      assert proc[..] == ps[c := ps[c].(parent := p)];
      ghost var qs := proc[..];
      proc[c] := proc[c].(stime := 0, rutime := 0, retime := 0, state := Runnable, ctime := ticks);
      assert proc[..] == qs[c := qs[c].(stime := 0, rutime := 0, retime := 0, state := Runnable, ctime := ticks)];
      forking := forking - {c};
    }

    /** fork by process p; memory says whether copyuvm finds the memory it needs. */
    method Fork(p: nat, memory: bool) returns (r: int)
      requires Inv(Abs()) && Enabled(Abs(), ForkBegin(p))
      modifies this, proc
      ensures var c := FindUnused(old(proc[..]), 0);
        if c == proc.Length then r == -1 && Abs() == old(Abs())
        else if !memory then r == -1 && Reaches(old(Abs()), [ForkBegin(p), ForkFail(c)], Abs())
        else r == old(nextpid) && Reaches(old(Abs()), [ForkBegin(p), ForkLink(c), ForkEnd(c)], Abs())
      ensures r != -1 ==> r == old(nextpid) && nextpid == r + 1
      ensures r != -1 ==> exists c :: 0 <= c < proc.Length && ForkedAt(old(proc[..]), proc[..], p, r, ticks, c)
      ensures forall k :: 0 <= k < proc.Length && old(proc[k]).state != Unused ==> proc[k] == old(proc[k])
      ensures r == -1 ==> forall k :: 0 <= k < proc.Length ==> proc[k].state == old(proc[k]).state
    {
      hide Inv, Reaches, FindUnused, ForkedAt;
      ghost var s0 := Abs();
      ForkBeginInv(s0, p);
      var c := Allocproc(p);
      if c == -1 {
        return -1;
      }
      ghost var s1 := Abs();
      Unlinked(s0, c);
      if !memory {
        proc[c] := proc[c].(state := Unused);
        assert proc[..] == s1.ps[c := s1.ps[c].(state := Unused)];
        forking := forking - {c};
        Two(s0, s1, Abs(), ForkBegin(p), ForkFail(c));
        return -1;
      }
      Begin(p, c);
      ghost var s2 := Step(s1, ForkLink(c));
      Three(s0, s1, s2, Abs(), ForkBegin(p), ForkLink(c), ForkEnd(c));
      r := proc[c].pid;
      ForkedThere(s0, s1, p, c);
    }

    /** exit's loop: the children go to init, which is woken if one of them is a zombie. */
    method Abandon(me: nat, ghost ps: seq<Proc>)
      requires me < |ps| == proc.Length && forall k: nat :: k < |ps| ==> proc[k] == LeftBy(ps, me, initproc, k, 0)
      modifies proc
      ensures forall k: nat :: k < |ps| ==> proc[k] == LeftBy(ps, me, initproc, k, |ps|)
    {
      hide ZombieBefore;
      var i := 0;
      while i < proc.Length
        invariant 0 <= i <= proc.Length
        invariant forall k: nat :: k < proc.Length ==> proc[k] == LeftBy(ps, me, initproc, k, i)
      {
        LeftNext(ps, me, i);
        if proc[i].parent == me {
          proc[i] := proc[i].(parent := initproc);
          if proc[i].state == Zombie {
            Wakeup1(OnProc(initproc));
          }
        }
        i := i + 1;
      }
    }

    /** exit of process me, from taking ptable.lock. */
    method Exit(me: nat, status: int)
      requires Enabled(Abs(), Event.Exit(me, status))
      modifies this, proc
      ensures Abs() == Step(old(Abs()), Event.Exit(me, status))
      ensures proc[me].state == Zombie && proc[me].status == status && proc[me].ttime == ticks
      ensures proc[me].pid == old(proc[me]).pid && exits == old(exits)[old(proc[me]).pid := status]
      ensures forall k :: 0 <= k < proc.Length && k != me ==>
        LeftAlone(old(proc[..]), proc[k], me, initproc, k)
    {
      hide ZombieBefore, HasZombie, Exited, Left, LeftBy;
      ghost var ps := proc[..];
      Wakeup1(OnProc(proc[me].parent));
      LeftStart(ps, proc[..], me, initproc);
      Abandon(me, ps);
      LeftEnds(ps, proc[..], me, initproc, ticks, status);
      ghost var qs := proc[..];
      proc[me] := proc[me].(ttime := ticks);
      proc[me] := proc[me].(state := Zombie);
      proc[me] := proc[me].(status := status);
      assert proc[..] == qs[me := qs[me].(ttime := ticks, state := Zombie, status := status)];
      LeftOthers(ps, me, initproc);
      exits := exits[ps[me].pid := status];
    }

    /** One scan of wait, or of wait_stat, by process p. */
    method Wait(p: nat, stat: bool) returns (out: Outcome)
      requires Enabled(Abs(), Event.Wait(p, stat))
      modifies this, proc
      ensures Abs() == Step(old(Abs()), Event.Wait(p, stat))
      ensures var ps, c := old(proc[..]), FindZombie(old(proc[..]), p, 0);
        if c < |ps| then out == Reported(ps[c].pid, ps[c].status, PerfOf(ps[c]))
        else if !HasKids(ps, p) || ps[p].killed then out == NoChildren
        else out == Asleep
      ensures out.Reported? ==> exists c :: 0 <= c < proc.Length && ReapedAt(old(proc[..]), proc[..], p, stat, out, c)
      ensures out.NoChildren? ==> proc[..] == old(proc[..])
      ensures out.Asleep? ==>
        && proc[p] == old(proc[p]).(state := Sleeping, chan := OnProc(p))
        && forall k :: 0 <= k < proc.Length && k != p ==> proc[k] == old(proc[k])
      ensures old(TimesOk(Abs())) && out.Reported? ==>
        out.perf.stime + out.perf.retime + out.perf.rutime == out.perf.ttime - out.perf.ctime
    {
      hide ReapedAt, Reaped, PerfOf;
      ghost var ps := proc[..];
      var havekids := false;
      var i := 0;
      while i < proc.Length
        invariant 0 <= i <= proc.Length && Abs() == old(Abs())
        invariant FindZombie(ps, p, i) == FindZombie(ps, p, 0)
        invariant havekids <==> exists k :: 0 <= k < i && ps[k].parent == p
      {
        if proc[i].parent == p {
          havekids := true;
          if proc[i].state == Zombie {
            out := Reported(proc[i].pid, proc[i].status, PerfOf(proc[i]));
            PerfAdds(ps[i], old(ticks));
            assert old(TimesOk(Abs())) ==> TimeOk(ps[i], old(ticks));
            reaped := reaped[ps[i].pid := ps[i].status];
            proc[i] := proc[i].(status := 0);
            if stat {
              proc[i] := proc[i].(stime := 0, retime := 0, rutime := 0, ttime := 0, ctime := 0);
            }
            proc[i] := proc[i].(state := Unused, pid := 0, parent := NOPARENT, killed := false);
            ReapedIs(ps[i], proc[i], stat);
            assert proc[..] == ps[i := Reaped(ps[i], stat)];
            ReapedThere(ps, p, stat, i);
            return;
          }
        }
        i := i + 1;
      }
      if !havekids || proc[p].killed {
        return NoChildren;
      }
      proc[p] := proc[p].(chan := OnProc(p));
      proc[p] := proc[p].(state := Sleeping);
      assert proc[..] == ps[p := ps[p].(state := Sleeping, chan := OnProc(p))];
      out := Asleep;
    }
  }

  /** kill found the pid in slot i: that process has the flag and is not asleep, and nothing else has changed. */
  ghost predicate KilledAt(ps: seq<Proc>, qs: seq<Proc>, pid: nat, ticks: int, i: nat)
    requires i < |ps|
  {
    && |qs| == |ps| && ps[i].pid == pid && (forall k :: 0 <= k < i ==> ps[k].pid != pid)
    && qs[i].killed && qs[i].ttime == ticks
    && qs[i].state == (if ps[i].state == Sleeping then Runnable else ps[i].state)
    && qs[i].(killed := ps[i].killed, ttime := ps[i].ttime, state := ps[i].state) == ps[i]
    && forall k :: 0 <= k < |ps| && k != i ==> qs[k] == ps[k]
  }

  /** The unused slot c holds a new runnable child of p; nothing else has changed. */
  ghost predicate ForkedAt(ps: seq<Proc>, qs: seq<Proc>, p: nat, pid: int, ticks: int, c: nat)
    requires c < |ps|
  {
    && |qs| == |ps| && ps[c].state == Unused
    && qs[c].state == Runnable && qs[c].pid == pid && qs[c].parent == p && qs[c].ctime == ticks
    && qs[c].stime == 0 && qs[c].retime == 0 && qs[c].rutime == 0
    && qs[c].chan == ps[c].chan && qs[c].killed == ps[c].killed && qs[c].status == ps[c].status
    && qs[c].ttime == ps[c].ttime
    && forall k :: 0 <= k < |ps| && k != c ==> qs[k] == ps[k]
  }

  /** What exit of me leaves of slot k: an orphan goes to init; one asleep in wait, for me to exit or, as init, over a
      zombie that it inherits, is woken; nothing else changes. */
  ghost predicate LeftAlone(ps: seq<Proc>, q: Proc, me: nat, init: nat, k: nat)
    requires k < |ps| && me < |ps|
  {
    var p := ps[k];
    && q.parent == (if p.parent == me then init else p.parent)
    && q.state == (if p.state == Sleeping && (p.chan == OnProc(ps[me].parent) ||
                      (p.chan == OnProc(init) &&
                       exists j :: 0 <= j < |ps| && ps[j].parent == me && ps[j].state == Zombie))
                   then Runnable else p.state)
    && q.(parent := p.parent, state := p.state) == p
  }

  lemma LeftOthers(ps: seq<Proc>, me: nat, init: nat)
    requires me < |ps|
    ensures forall k: nat :: k < |ps| ==> LeftAlone(ps, Left(ps, me, init, k), me, init, k)
    ensures forall t, v :: Exited(ps, me, init, t, v)[me].pid == ps[me].pid
    ensures forall t, v :: forall k: nat :: k < |ps| && k != me ==>
      Exited(ps, me, init, t, v)[k] == Left(ps, me, init, k)
  {
    if j :| 0 <= j < |ps| && ps[j].parent == me && ps[j].state == Zombie {
      assert IsZombieChild(ps, me, j);
    }
    if j :| 0 <= j < |ps| && IsZombieChild(ps, me, j) {
      assert ps[j].parent == me && ps[j].state == Zombie;
    }
    assert HasZombie(ps, me) <==> exists j :: 0 <= j < |ps| && ps[j].parent == me && ps[j].state == Zombie;
    hide HasZombie;
  }

  /** wait found the zombie in slot c, a child of p: it reports its pid, its status and its times, and frees the slot;
      nothing else has changed. */
  ghost predicate ReapedAt(ps: seq<Proc>, qs: seq<Proc>, p: nat, stat: bool, out: Outcome, c: nat)
    requires c < |ps| && out.Reported?
  {
    && |qs| == |ps| && ps[c].state == Zombie && ps[c].parent == p
    && (forall k :: 0 <= k < c ==> !(ps[k].state == Zombie && ps[k].parent == p))
    && out.pid == ps[c].pid && out.status == ps[c].status
    && out.perf.ctime == ps[c].ctime && out.perf.ttime == ps[c].ttime && out.perf.stime == ps[c].stime
    && out.perf.retime == ps[c].retime && out.perf.rutime == ps[c].rutime
    && qs[c].state == Unused && qs[c].pid == 0 && qs[c].parent == NOPARENT && !qs[c].killed && qs[c].status == 0
    && qs[c].chan == ps[c].chan
    && (if stat then qs[c].stime == qs[c].retime == qs[c].rutime == qs[c].ttime == qs[c].ctime == 0
        else qs[c].stime == ps[c].stime && qs[c].retime == ps[c].retime && qs[c].rutime == ps[c].rutime
             && qs[c].ttime == ps[c].ttime && qs[c].ctime == ps[c].ctime)
    && forall k :: 0 <= k < |ps| && k != c ==> qs[k] == ps[k]
  }

  lemma ReapedThere(ps: seq<Proc>, p: nat, stat: bool, c: nat)
    requires c < |ps| && IsZombieChild(ps, p, c) && FindZombie(ps, p, 0) == c
    ensures ReapedAt(ps, ps[c := Reaped(ps[c], stat)], p, stat, Reported(ps[c].pid, ps[c].status, PerfOf(ps[c])), c)
  {
    hide FindZombie;
    forall k | 0 <= k < c ensures !(ps[k].state == Zombie && ps[k].parent == p) {
      assert !IsZombieChild(ps, p, k);
    }
  }

  lemma ReapedIs(p: Proc, q: Proc, stat: bool)
    requires q.state == Unused && q.pid == 0 && q.parent == NOPARENT && !q.killed && q.status == 0 && q.chan == p.chan
    requires if stat then q.stime == q.retime == q.rutime == q.ttime == q.ctime == 0
             else q.stime == p.stime && q.retime == p.retime && q.rutime == p.rutime && q.ttime == p.ttime
                  && q.ctime == p.ctime
    ensures q == Reaped(p, stat)
  {
  }

  lemma PerfAdds(p: Proc, ticks: int)
    requires p.state == Zombie
    ensures var f := PerfOf(p); TimeOk(p, ticks) ==> f.stime + f.retime + f.rutime == f.ttime - f.ctime
  {
  }

  lemma ForkedThere(s: State, s1: State, p: nat, c: nat)
    requires Enabled(s, ForkBegin(p)) && FindUnused(s.ps, 0) == c < |s.ps| && s1 == Step(s, ForkBegin(p))
    requires Enabled(s1, ForkLink(c)) && Enabled(Step(s1, ForkLink(c)), ForkEnd(c))
    ensures ForkedAt(s.ps, Step(Step(s1, ForkLink(c)), ForkEnd(c)).ps, p, s.nextpid, s.ticks, c)
  {
    hide FindUnused;
  }

  function PerfOf(p: Proc): Perf { Perf(p.ctime, p.ttime, p.stime, p.retime, p.rutime) }

  // ---- exit's loop ----

  ghost predicate ZombieBefore(ps: seq<Proc>, me: nat, i: nat)
    requires i <= |ps|
  {
    exists j: nat :: j < i && IsZombieChild(ps, me, j)
  }

  /** Slot k when exit has looked at the slots before i. */
  ghost function LeftBy(ps: seq<Proc>, me: nat, init: nat, k: nat, i: nat): Proc
    requires k < |ps| && me < |ps| && i <= |ps|
  {
    var p := Woken(ps[k], OnProc(ps[me].parent));
    var q := if ZombieBefore(ps, me, i) then Woken(p, OnProc(init)) else p;
    if k < i && q.parent == me then q.(parent := init) else q
  }

  lemma LeftStart(ps: seq<Proc>, qs: seq<Proc>, me: nat, init: nat)
    requires me < |ps| && qs == WokenAll(ps, OnProc(ps[me].parent))
    ensures forall k: nat :: k < |ps| ==> qs[k] == LeftBy(ps, me, init, k, 0)
  {
  }

  lemma LeftNext(ps: seq<Proc>, me: nat, i: nat)
    requires me < |ps| && i < |ps|
    ensures ZombieBefore(ps, me, i + 1) <==> ZombieBefore(ps, me, i) || IsZombieChild(ps, me, i)
  {
  }

  lemma LeftEnds(ps: seq<Proc>, qs: seq<Proc>, me: nat, init: nat, ticks: int, status: int)
    requires me < |ps| == |qs| && forall k: nat :: k < |ps| ==> qs[k] == LeftBy(ps, me, init, k, |ps|)
    ensures qs[me := qs[me].(ttime := ticks, state := Zombie, status := status)] == Exited(ps, me, init, ticks, status)
  {
    assert ZombieBefore(ps, me, |ps|) <==> HasZombie(ps, me);
    hide HasZombie, ZombieBefore;
    forall k: nat | k < |ps| ensures qs[k] == Left(ps, me, init, k) {
    }
  }

  // ---- fork's steps ----

  lemma Unlinked(s: State, c: nat)
    requires Inv(s) && c < |s.ps| && s.ps[c].state == Unused
    ensures s.ps[c].parent == NOPARENT
  {
    assert ParentOk(s, c);
  }

  lemma Two(s: State, s1: State, s2: State, e: Event, f: Event)
    requires Enabled(s, e) && s1 == Step(s, e) && Enabled(s1, f) && s2 == Step(s1, f)
    ensures Reaches(s, [e, f], s2)
  {
    hide Step, Enabled;
    assert [e, f][1..] == [f] && [f][1..] == [];
    assert Reaches(s1, [f], s2);
  }

  lemma Three(s: State, s1: State, s2: State, s3: State, e: Event, f: Event, g: Event)
    requires Enabled(s, e) && s1 == Step(s, e) && Enabled(s1, f) && s2 == Step(s1, f) && Enabled(s2, g) &&
      s3 == Step(s2, g)
    ensures Reaches(s, [e, f, g], s3)
  {
    hide Step, Enabled;
    Two(s1, s2, s3, f, g);
    assert [e, f, g][1..] == [f, g];
  }
}
