/** The process table of proc.c: fork, exit, wait, sleep, wakeup, kill, scheduling and the timer tick as
    steps on one value. Each step is one critical section under ptable.lock. */
module Processes {

  datatype Status = Unused | Embryo | Sleeping | Runnable | Running | Zombie

  /** What a process sleeps on: a process table slot (wait) or any other address. */
  datatype Chan = NoChan | OnProc(i: int) | Other(k: nat)

  const NOPARENT := -1

  datatype Proc = Proc(state: Status, pid: nat, parent: int, chan: Chan, killed: bool, status: int,
    ctime: int, ttime: int, stime: int, retime: int, rutime: int)

  /** The table and its counters; the fork in progress for each embryo; and, for each pid, the status it
      exited with and the status wait reported. */
  datatype State = State(ps: seq<Proc>, init: nat, nextpid: nat, ticks: int, forking: map<nat, nat>,
    exits: map<nat, int>, reaped: map<nat, int>)

  datatype Event =
    | Tick
    | Schedule(p: nat) | Yield(p: nat)
    | Sleep(p: nat, k: nat) | Wakeup(k: nat)
    | Kill(pid: nat)
    | ForkBegin(p: nat) | ForkFail(c: nat) | ForkLink(c: nat) | ForkEnd(c: nat)
    | Exit(p: nat, status: int)
    | Wait(p: nat, stat: bool)        // wait, or wait_stat

  predicate Live(p: Proc) { p.state.Sleeping? || p.state.Runnable? || p.state.Running? }

  // ---- what the steps do ----

  function Ticked(p: Proc): Proc {
    match p.state
    case Running => p.(rutime := p.rutime + 1)
    case Sleeping => p.(stime := p.stime + 1)
    case Runnable => p.(retime := p.retime + 1)
    case _ => p
  }

  function Woken(p: Proc, chan: Chan): Proc {
    if p.state.Sleeping? && p.chan == chan then p.(state := Runnable) else p
  }

  function Killed(p: Proc, ticks: int): Proc {
    p.(killed := true, ttime := ticks, state := if p.state.Sleeping? then Runnable else p.state)
  }

  function TickedAll(ps: seq<Proc>): seq<Proc> { seq(|ps|, i requires 0 <= i < |ps| => Ticked(ps[i])) }

  function WokenAll(ps: seq<Proc>, chan: Chan): seq<Proc> { seq(|ps|, i requires 0 <= i < |ps| => Woken(ps[i], chan)) }

  /** The first slot from i on that has the pid, that is unused, that is a zombie child of p; |ps| if none. */
  function FindPid(ps: seq<Proc>, pid: nat, i: nat): (r: nat)
    requires i <= |ps|
    ensures i <= r <= |ps| && (r < |ps| ==> ps[r].pid == pid)
    ensures forall k :: i <= k < r ==> ps[k].pid != pid
    decreases |ps| - i
  {
    if i == |ps| || ps[i].pid == pid then i else FindPid(ps, pid, i + 1)
  }

  function FindUnused(ps: seq<Proc>, i: nat): (r: nat)
    requires i <= |ps|
    ensures i <= r <= |ps| && (r < |ps| ==> ps[r].state == Unused)
    ensures forall k :: i <= k < r ==> ps[k].state != Unused
    decreases |ps| - i
  {
    if i == |ps| || ps[i].state == Unused then i else FindUnused(ps, i + 1)
  }

  predicate IsZombieChild(ps: seq<Proc>, p: int, i: nat)
    requires i < |ps|
  {
    ps[i].parent == p && ps[i].state == Zombie
  }

  function FindZombie(ps: seq<Proc>, p: nat, i: nat): (r: nat)
    requires i <= |ps|
    ensures i <= r <= |ps| && (r < |ps| ==> IsZombieChild(ps, p, r))
    ensures forall k :: i <= k < r ==> !IsZombieChild(ps, p, k)
    decreases |ps| - i
  {
    if i == |ps| || IsZombieChild(ps, p, i) then i else FindZombie(ps, p, i + 1)
  }

  predicate HasKids(ps: seq<Proc>, p: int) { exists i :: 0 <= i < |ps| && ps[i].parent == p }

  predicate HasZombie(ps: seq<Proc>, p: int) { exists i :: 0 <= i < |ps| && IsZombieChild(ps, p, i) }

  /** What exit of process me does to another slot: its parent is woken, its children go to init, and init
      is woken if one of them is a zombie. */
  function Left(ps: seq<Proc>, me: nat, init: nat, i: nat): Proc
    requires i < |ps| && me < |ps|
  {
    var p := Woken(ps[i], OnProc(ps[me].parent));
    var q := if HasZombie(ps, me) then Woken(p, OnProc(init)) else p;
    if q.parent == me then q.(parent := init) else q
  }

  function Exited(ps: seq<Proc>, me: nat, init: nat, ticks: int, status: int): (qs: seq<Proc>)
    requires me < |ps|
    ensures |qs| == |ps|
  {
    seq(|ps|, i requires 0 <= i < |ps| =>
      if i == me then Left(ps, me, init, i).(ttime := ticks, state := Zombie, status := status)
        else Left(ps, me, init, i))
  }

  function Reaped(p: Proc, stat: bool): Proc {
    var q := p.(state := Unused, pid := 0, parent := NOPARENT, killed := false, status := 0);
    if stat then q.(stime := 0, retime := 0, rutime := 0, ttime := 0, ctime := 0) else q
  }

  /** Who can do what: a running process acts, and one in the middle of fork neither exits nor waits. */
  predicate Enabled(s: State, e: Event) {
    match e
    case Tick | Wakeup(_) | Kill(_) => true
    case Schedule(p) => p < |s.ps| && s.ps[p].state == Runnable
    case Yield(p) => p < |s.ps| && s.ps[p].state == Running
    case Sleep(p, _) => p < |s.ps| && s.ps[p].state == Running
    case ForkBegin(p) => p < |s.ps| && s.ps[p].state == Running && p !in s.forking.Values
    case ForkFail(c) => c in s.forking && c < |s.ps| && s.ps[c].parent == NOPARENT
    case ForkLink(c) => c in s.forking && c < |s.ps| && s.ps[c].parent == NOPARENT
    case ForkEnd(c) => c in s.forking && c < |s.ps| && s.ps[c].parent == s.forking[c]
    case Exit(p, _) => p < |s.ps| && s.ps[p].state == Running && p != s.init && p !in s.forking.Values
    case Wait(p, _) => p < |s.ps| && s.ps[p].state == Running && p !in s.forking.Values
  }

  function Step(s: State, e: Event): State
    requires Enabled(s, e)
  {
    match e
    case Tick => s.(ticks := s.ticks + 1, ps := TickedAll(s.ps))
    case Schedule(p) => s.(ps := s.ps[p := s.ps[p].(state := Running, chan := NoChan)])
    case Yield(p) => s.(ps := s.ps[p := s.ps[p].(state := Runnable)])
    case Sleep(p, k) => s.(ps := s.ps[p := s.ps[p].(state := Sleeping, chan := Other(k))])
    case Wakeup(k) => s.(ps := WokenAll(s.ps, Other(k)))
    case Kill(pid) => var i := FindPid(s.ps, pid, 0);
      if i == |s.ps| then s else s.(ps := s.ps[i := Killed(s.ps[i], s.ticks)])
    case ForkBegin(p) => var i := FindUnused(s.ps, 0);
      if i == |s.ps| then s else
      s.(ps := s.ps[i := s.ps[i].(state := Embryo, pid := s.nextpid)], nextpid := s.nextpid + 1,
          forking := s.forking[i := p])
    case ForkFail(c) => s.(ps := s.ps[c := s.ps[c].(state := Unused)], forking := s.forking - {c})
    case ForkLink(c) => s.(ps := s.ps[c := s.ps[c].(parent := s.forking[c])])
    case ForkEnd(c) =>
      s.(ps := s.ps[c := s.ps[c].(stime := 0, rutime := 0, retime := 0, state := Runnable, ctime := s.ticks)],
          forking := s.forking - {c})
    case Exit(p, status) =>
      s.(ps := Exited(s.ps, p, s.init, s.ticks, status), exits := s.exits[s.ps[p].pid := status])
    case Wait(p, stat) => var c := FindZombie(s.ps, p, 0);
      if c < |s.ps| then s.(ps := s.ps[c := Reaped(s.ps[c], stat)], reaped := s.reaped[s.ps[c].pid := s.ps[c].status])
      else if !HasKids(s.ps, p) || s.ps[p].killed then s
      else s.(ps := s.ps[p := s.ps[p].(state := Sleeping, chan := OnProc(p))])
  }

  // ---- the exit and wait protocol ----

  /** Every process but init has a live parent; an embryo has none, or the process that is forking it. */
  ghost predicate ParentOk(s: State, i: nat)
    requires i < |s.ps|
  {
    var p := s.ps[i];
    match p.state
    case Unused => p.parent == NOPARENT
    case Embryo => p.parent == NOPARENT || (i in s.forking && p.parent == s.forking[i])
    case _ =>
      if i == s.init then p.parent == NOPARENT && Live(p)
      else 0 <= p.parent < |s.ps| && p.parent != i && Live(s.ps[p.parent])
  }

  /** An embryo is being forked by a live process. */
  ghost predicate ForkOk(s: State, i: nat)
    requires i < |s.ps|
  {
    i in s.forking <==> s.ps[i].state == Embryo
  }

  ghost predicate ForkerOk(s: State, c: nat)
    requires c in s.forking
  {
    c < |s.ps| && s.forking[c] < |s.ps| && Live(s.ps[s.forking[c]])
  }

  /** A process asleep on a slot is asleep in wait, and has no zombie child. */
  ghost predicate WaitOk(s: State, i: nat)
    requires i < |s.ps|
  {
    s.ps[i].state.Sleeping? && s.ps[i].chan.OnProc? ==> s.ps[i].chan.i == i && !HasZombie(s.ps, i)
  }

  ghost predicate PidOk(s: State, i: nat)
    requires i < |s.ps|
  {
    s.ps[i].pid < s.nextpid && (s.ps[i].state != Unused ==> s.ps[i].pid > 0)
  }

  ghost predicate PidsDistinct(ps: seq<Proc>) {
    forall i, j :: 0 <= i < j < |ps| ==> ps[i].pid == 0 || ps[i].pid != ps[j].pid
  }

  /** A zombie has exited with its status and is not reaped; nothing else in the table has exited. */
  ghost predicate LogOk(s: State, i: nat)
    requires i < |s.ps|
  {
    && (s.ps[i].state == Zombie ==>
        s.ps[i].pid in s.exits && s.exits[s.ps[i].pid] == s.ps[i].status && s.ps[i].pid !in s.reaped)
    && (s.ps[i].state != Zombie ==> s.ps[i].pid == 0 || s.ps[i].pid !in s.exits)
  }

  /** Each exit is still a zombie, or was reaped with its own status. */
  ghost predicate ExitOk(s: State, pid: nat)
    requires pid in s.exits
  {
    && 0 < pid < s.nextpid
    && (pid in s.reaped ==> s.reaped[pid] == s.exits[pid])
    && (pid !in s.reaped ==> exists i :: 0 <= i < |s.ps| && s.ps[i].pid == pid && s.ps[i].state == Zombie)
  }

  ghost predicate Inv(s: State) {
    && s.init < |s.ps| && Live(s.ps[s.init]) && s.nextpid > 0
    && (forall i: nat :: i < |s.ps| ==> ParentOk(s, i))
    && (forall i: nat :: i < |s.ps| ==> ForkOk(s, i))
    && (forall c :: c in s.forking ==> ForkerOk(s, c))
    && (forall i: nat :: i < |s.ps| ==> WaitOk(s, i))
    && (forall i: nat :: i < |s.ps| ==> PidOk(s, i))
    && (forall i: nat :: i < |s.ps| ==> LogOk(s, i))
    && PidsDistinct(s.ps)
    && (forall pid :: pid in s.exits ==> ExitOk(s, pid))
    && (forall pid :: pid in s.reaped ==> pid in s.exits)
  }

  // ---- steps that change no family ----

  /** The same process: it may be woken, put to sleep elsewhere, moved between live states or charged for time. */
  ghost predicate Gentle(p: Proc, q: Proc) {
    && q.pid == p.pid && q.parent == p.parent && q.status == p.status
    && (q.state == p.state || (Live(p) && Live(q)))
  }

  /** If q is slot i's new sleep in wait, there is no zombie child to wait for. */
  ghost predicate SleepOk(ps: seq<Proc>, i: nat, q: Proc)
    requires i < |ps|
  {
    q.state.Sleeping? && q.chan.OnProc? ==>
      (ps[i].state.Sleeping? && ps[i].chan == q.chan) || (q.chan.i == i && !HasZombie(ps, i))
  }

  lemma SameZombies(ps: seq<Proc>, qs: seq<Proc>, p: int)
    requires |qs| == |ps| && forall i: nat :: i < |ps| ==> Gentle(ps[i], qs[i])
    ensures HasZombie(qs, p) <==> HasZombie(ps, p)
  {
    forall i: nat | i < |ps| ensures IsZombieChild(qs, p, i) <==> IsZombieChild(ps, p, i) {
      assert Gentle(ps[i], qs[i]);
    }
  }

  lemma GentleInv(s: State, t: State)
    requires Inv(s) && t == s.(ps := t.ps, ticks := t.ticks) && |t.ps| == |s.ps|
    requires forall i: nat :: i < |s.ps| ==> Gentle(s.ps[i], t.ps[i])
    requires forall i: nat :: i < |s.ps| ==> SleepOk(s.ps, i, t.ps[i])
    ensures Inv(t)
  {
    hide HasZombie;
    assert Gentle(s.ps[s.init], t.ps[s.init]);
    forall i: nat | i < |s.ps| ensures ParentOk(t, i) && ForkOk(t, i) && WaitOk(t, i) && PidOk(t, i) && LogOk(t, i) {
      assert ParentOk(s, i) && ForkOk(s, i) && WaitOk(s, i) && PidOk(s, i) && LogOk(s, i) && Gentle(s.ps[i], t.ps[i]) &&
        SleepOk(s.ps, i, t.ps[i]);
      if 0 <= s.ps[i].parent < |s.ps| { assert Gentle(s.ps[s.ps[i].parent], t.ps[s.ps[i].parent]); }
      SameZombies(s.ps, t.ps, i);
    }
    forall c | c in t.forking ensures ForkerOk(t, c) {
      assert ForkerOk(s, c) && Gentle(s.ps[s.forking[c]], t.ps[s.forking[c]]);
    }
    forall pid | pid in t.exits ensures ExitOk(t, pid) {
      assert ExitOk(s, pid);
      if pid !in s.reaped {
        var i :| 0 <= i < |s.ps| && s.ps[i].pid == pid && s.ps[i].state == Zombie;
        assert Gentle(s.ps[i], t.ps[i]);
      }
    }
    forall i, j | 0 <= i < j < |t.ps| ensures t.ps[i].pid == 0 || t.ps[i].pid != t.ps[j].pid {
      assert Gentle(s.ps[i], t.ps[i]) && Gentle(s.ps[j], t.ps[j]);
    }
  }

  lemma GentleStep(s: State, e: Event)
    requires Inv(s) && Enabled(s, e)
    requires e.Tick? || e.Schedule? || e.Yield? || e.Sleep? || e.Wakeup? || e.Kill?
    ensures Inv(Step(s, e))
  {
    hide Inv, FindPid;
    GentleInv(s, Step(s, e));
  }

  // ---- fork ----

  lemma SlotZombies(ps: seq<Proc>, c: nat, q: Proc, p: int)
    requires c < |ps| && ps[c].state != Zombie && q.state != Zombie
    ensures HasZombie(ps[c := q], p) <==> HasZombie(ps, p)
  {
    var qs := ps[c := q];
    forall i: nat | i < |ps| ensures IsZombieChild(qs, p, i) <==> IsZombieChild(ps, p, i) {
    }
  }

  lemma ExitPids(s: State)
    requires Inv(s)
    ensures forall pid :: pid in s.exits ==> 0 < pid < s.nextpid
  {
    hide ParentOk, ForkOk, WaitOk, LogOk, ForkerOk, PidsDistinct;
    forall pid | pid in s.exits ensures 0 < pid < s.nextpid {
      assert ExitOk(s, pid);
    }
  }

  lemma SlotPids(s: State, c: nat, q: Proc)
    requires Inv(s) && c < |s.ps| && (q.pid == s.ps[c].pid || q.pid == s.nextpid || q.pid == 0)
    ensures PidsDistinct(s.ps[c := q])
  {
    hide ParentOk, ForkOk, WaitOk, LogOk, ForkerOk, ExitOk;
    forall i: nat | i < |s.ps| ensures s.ps[i].pid < s.nextpid {
      assert PidOk(s, i);
    }
  }

  /** One slot, not live and not a zombie, changes among unused, embryo and newly runnable. */
  lemma SlotInv(s: State, t: State, c: nat)
    requires Inv(s) && c < |s.ps| == |t.ps| &&
      t == s.(ps := s.ps[c := t.ps[c]], nextpid := t.nextpid, forking := t.forking)
    requires s.ps[c].state.Unused? || s.ps[c].state.Embryo?
    requires t.ps[c].state.Unused? || t.ps[c].state.Embryo? || t.ps[c].state.Runnable?
    requires (t.ps[c].pid == s.ps[c].pid && t.nextpid == s.nextpid) ||
      (t.ps[c].pid == s.nextpid && t.nextpid == s.nextpid + 1)
    requires ParentOk(t, c) && ForkOk(t, c) && PidOk(t, c) && c != s.init && t.ps[c].chan == s.ps[c].chan
    requires forall d :: d in t.forking ==> ForkerOk(t, d)
    requires forall d: nat :: d != c ==>
      (d in t.forking <==> d in s.forking) && (d in t.forking ==> t.forking[d] == s.forking[d])
    ensures Inv(t)
  {
    hide HasZombie, IsZombieChild;
    ExitPids(s);
    SlotPids(s, c, t.ps[c]);
    forall i: nat | i < |s.ps| ensures ParentOk(t, i) && ForkOk(t, i) && PidOk(t, i) && LogOk(t, i) && WaitOk(t, i) {
      assert ParentOk(s, i) && ForkOk(s, i) && PidOk(s, i) && LogOk(s, i) && WaitOk(s, i);
      SlotZombies(s.ps, c, t.ps[c], i);
    }
    forall pid | pid in t.exits ensures ExitOk(t, pid) {
      assert ExitOk(s, pid);
      if pid !in s.reaped {
        var i :| 0 <= i < |s.ps| && s.ps[i].pid == pid && s.ps[i].state == Zombie;
        assert t.ps[i] == s.ps[i];
      }
    }
  }

  lemma ForkBeginInv(s: State, p: nat)
    requires Inv(s) && Enabled(s, ForkBegin(p))
    ensures Inv(Step(s, ForkBegin(p)))
  {
    hide HasZombie, LogOk, ExitOk, PidsDistinct, WaitOk;
    var c, t := FindUnused(s.ps, 0), Step(s, ForkBegin(p));
    if c < |s.ps| {
      assert ParentOk(s, c) && ForkOk(s, c);
      forall d | d in t.forking ensures ForkerOk(t, d) {
        if d != c { assert ForkerOk(s, d); }
      }
      SlotInv(s, t, c);
    }
  }

  lemma ForkMiddleInv(s: State, e: Event)
    requires Inv(s) && Enabled(s, e) && (e.ForkFail? || e.ForkLink? || e.ForkEnd?)
    ensures Inv(Step(s, e))
  {
    hide HasZombie, LogOk, ExitOk, PidsDistinct, WaitOk;
    var t := Step(s, e);
    assert ParentOk(s, e.c) && ForkOk(s, e.c) && ForkerOk(s, e.c) && PidOk(s, e.c);
    forall d | d in t.forking ensures ForkerOk(t, d) {
      assert ForkerOk(s, d);
    }
    SlotInv(s, t, e.c);
  }

  // ---- exit ----

  lemma LeftIs(ps: seq<Proc>, me: nat, init: nat, i: nat)
    requires i < |ps| && me < |ps|
    ensures var q := Left(ps, me, init, i);
      && q.pid == ps[i].pid && q.status == ps[i].status && q.chan == ps[i].chan
      && q.parent == (if ps[i].parent == me then init else ps[i].parent)
      && (q.state == ps[i].state || (ps[i].state.Sleeping? && q.state.Runnable?))
      && (q.state.Sleeping? && q.chan == OnProc(i) ==> ps[me].parent != i && (HasZombie(ps, me) ==> init != i))
  {
    hide HasZombie;
  }

  /** After an exit, a process still asleep in wait has no zombie child. */
  lemma ExitWaits(s: State, me: nat, status: int, i: nat)
    requires Inv(s) && Enabled(s, Exit(me, status)) && i < |s.ps|
    ensures WaitOk(Step(s, Exit(me, status)), i)
  {
    hide Left, ForkOk, ForkerOk, LogOk, ExitOk, PidOk, PidsDistinct;
    var t := Step(s, Exit(me, status));
    assert WaitOk(s, i) && ParentOk(s, me);
    LeftIs(s.ps, me, s.init, i);
    if t.ps[i].state.Sleeping? && t.ps[i].chan.OnProc? {
      forall j: nat | j < |s.ps| ensures !IsZombieChild(t.ps, i, j) {
        LeftIs(s.ps, me, s.init, j);
        if s.ps[j].state == Zombie {
          assert IsZombieChild(s.ps, i, j) ==> HasZombie(s.ps, i);
          assert IsZombieChild(s.ps, me, j) ==> HasZombie(s.ps, me);
        }
      }
    }
  }

  lemma ExitFamily(s: State, me: nat, status: int, i: nat)
    requires Inv(s) && Enabled(s, Exit(me, status)) && i < |s.ps|
    ensures var t := Step(s, Exit(me, status)); ParentOk(t, i) && ForkOk(t, i) && PidOk(t, i) && LogOk(t, i)
    ensures i != me ==> Step(s, Exit(me, status)).ps[i].pid == s.ps[i].pid
  {
    hide Left, HasZombie, WaitOk, ExitOk;
    LeftIs(s.ps, me, s.init, i);
    LeftIs(s.ps, me, s.init, s.init);
    assert ParentOk(s, i) && ForkOk(s, i) && PidOk(s, i) && LogOk(s, i);
    assert ParentOk(s, me) && PidOk(s, me) && LogOk(s, me);
    if 0 <= s.ps[i].parent < |s.ps| { LeftIs(s.ps, me, s.init, s.ps[i].parent); }
    assert i != me ==> s.ps[i].pid != s.ps[me].pid;
  }

  lemma ExitLogs(s: State, me: nat, status: int, pid: nat)
    requires Inv(s) && Enabled(s, Exit(me, status)) && pid in Step(s, Exit(me, status)).exits
    ensures ExitOk(Step(s, Exit(me, status)), pid)
  {
    hide Left, HasZombie, WaitOk, ForkOk, ForkerOk, PidsDistinct, ParentOk;
    var t := Step(s, Exit(me, status));
    LeftIs(s.ps, me, s.init, me);
    assert PidOk(s, me) && LogOk(s, me);
    if pid == s.ps[me].pid {
      assert t.ps[me].pid == pid && t.ps[me].state == Zombie;
    } else {
      assert ExitOk(s, pid);
      if pid !in s.reaped {
        var i :| 0 <= i < |s.ps| && s.ps[i].pid == pid && s.ps[i].state == Zombie;
        LeftIs(s.ps, me, s.init, i);
        assert t.ps[i].pid == pid && t.ps[i].state == Zombie;
      }
    }
  }

  lemma ExitPidsDistinct(s: State, me: nat, status: int)
    requires Inv(s) && Enabled(s, Exit(me, status))
    ensures PidsDistinct(Step(s, Exit(me, status)).ps)
  {
    hide Left, HasZombie, WaitOk, ForkOk, ForkerOk, ParentOk, LogOk, ExitOk;
    forall i: nat | i < |s.ps| ensures Step(s, Exit(me, status)).ps[i].pid == s.ps[i].pid {
      LeftIs(s.ps, me, s.init, i);
    }
  }

  lemma ExitInv(s: State, me: nat, status: int)
    requires Inv(s) && Enabled(s, Exit(me, status))
    ensures Inv(Step(s, Exit(me, status)))
  {
    hide Left, HasZombie, ParentOk, WaitOk, ForkOk, LogOk, ExitOk, PidOk, PidsDistinct;
    var t := Step(s, Exit(me, status));
    forall i: nat | i < |s.ps| ensures ParentOk(t, i) && ForkOk(t, i) && PidOk(t, i) && LogOk(t, i) && WaitOk(t, i) {
      ExitFamily(s, me, status, i);
      ExitWaits(s, me, status, i);
    }
    forall pid | pid in t.exits ensures ExitOk(t, pid) {
      ExitLogs(s, me, status, pid);
    }
    ExitPidsDistinct(s, me, status);
    LeftIs(s.ps, me, s.init, s.init);
    forall c | c in t.forking ensures ForkerOk(t, c) {
      assert ForkerOk(s, c);
      LeftIs(s.ps, me, s.init, s.forking[c]);
    }
  }

  // ---- wait ----

  lemma NoZombie(ps: seq<Proc>, p: nat)
    requires FindZombie(ps, p, 0) == |ps|
    ensures !HasZombie(ps, p)
  {
  }

  lemma ReapZombies(ps: seq<Proc>, c: nat, q: Proc, p: int)
    requires c < |ps| && q.state != Zombie && HasZombie(ps[c := q], p)
    ensures HasZombie(ps, p)
  {
    var qs := ps[c := q];
    var i: nat :| i < |qs| && IsZombieChild(qs, p, i);
    assert IsZombieChild(ps, p, i);
  }

  lemma ReapInv(s: State, c: nat, stat: bool)
    requires Inv(s) && c < |s.ps| && s.ps[c].state == Zombie
    ensures Inv(s.(ps := s.ps[c := Reaped(s.ps[c], stat)], reaped := s.reaped[s.ps[c].pid := s.ps[c].status]))
  {
    hide HasZombie, IsZombieChild;
    var q := Reaped(s.ps[c], stat);
    var t := s.(ps := s.ps[c := q], reaped := s.reaped[s.ps[c].pid := s.ps[c].status]);
    SlotPids(s, c, q);
    assert PidOk(s, c) && LogOk(s, c) && ParentOk(s, c) && ForkOk(s, c);
    forall i: nat | i < |s.ps| ensures ParentOk(t, i) && ForkOk(t, i) && PidOk(t, i) && LogOk(t, i) && WaitOk(t, i) {
      assert ParentOk(s, i) && ForkOk(s, i) && PidOk(s, i) && LogOk(s, i) && WaitOk(s, i);
      if HasZombie(t.ps, i) { ReapZombies(s.ps, c, q, i); }
    }
    forall d | d in t.forking ensures ForkerOk(t, d) {
      assert ForkerOk(s, d);
    }
    forall pid | pid in t.exits ensures ExitOk(t, pid) {
      assert ExitOk(s, pid);
      if pid !in t.reaped {
        var i :| 0 <= i < |s.ps| && s.ps[i].pid == pid && s.ps[i].state == Zombie;
        assert t.ps[i] == s.ps[i];
      }
    }
  }

  lemma WaitInv(s: State, p: nat, stat: bool)
    requires Inv(s) && Enabled(s, Wait(p, stat))
    ensures Inv(Step(s, Wait(p, stat)))
  {
    hide Inv, HasZombie, HasKids;
    var c := FindZombie(s.ps, p, 0);
    if c < |s.ps| {
      ReapInv(s, c, stat);
    } else {
      NoZombie(s.ps, p);
      GentleInv(s, Step(s, Wait(p, stat)));
    }
  }

  lemma StepInv(s: State, e: Event)
    requires Inv(s) && Enabled(s, e)
    ensures Inv(Step(s, e))
  {
    hide Inv, Step;
    match e
    case Tick | Schedule(_) | Yield(_) | Sleep(_, _) | Wakeup(_) | Kill(_) => GentleStep(s, e);
    case ForkBegin(p) => ForkBeginInv(s, p);
    case ForkFail(_) | ForkLink(_) | ForkEnd(_) => ForkMiddleInv(s, e);
    case Exit(p, status) => ExitInv(s, p, status);
    case Wait(p, stat) => WaitInv(s, p, stat);
  }

  /** A run of enabled steps leads from s to t. */
  ghost predicate Reaches(s: State, es: seq<Event>, t: State)
    decreases |es|
  {
    if es == [] then t == s else Enabled(s, es[0]) && Reaches(Step(s, es[0]), es[1..], t)
  }

  /** userinit's table: init is runnable in slot 0, and nothing else is used. */
  predicate Booted(s: State) {
    && |s.ps| > 0 && s.init == 0 && s.nextpid == 2 && s.forking == map[] && s.exits == map[] && s.reaped == map[]
    && s.ps[0] == Proc(Runnable, 1, NOPARENT, NoChan, false, 0, s.ticks, 0, 0, 0, 0)
    && forall i :: 0 < i < |s.ps| ==> s.ps[i] == Proc(Unused, 0, NOPARENT, NoChan, false, 0, 0, 0, 0, 0, 0)
  }

  lemma BootInv(s: State)
    requires Booted(s)
    ensures Inv(s)
  {
  }

  lemma {:induction false} RunInv(s: State, es: seq<Event>, t: State)
    requires Inv(s) && Reaches(s, es, t)
    ensures Inv(t)
    decreases |es|
  {
    hide Inv, Step;
    if es != [] {
      StepInv(s, es[0]);
      RunInv(Step(s, es[0]), es[1..], t);
    }
  }

  ghost function ZombiePids(ps: seq<Proc>): set<nat> {
    set i | 0 <= i < |ps| && ps[i].state == Zombie :: ps[i].pid
  }

  /** Exit and wait in every run from boot: nobody sleeps in wait over a zombie child, no one's parent is
      unused, an embryo or a zombie, and the exits are the zombies and the reaped, each reaped with the
      status it exited with. */
  lemma EveryRun(s: State, es: seq<Event>, t: State)
    requires Booted(s) && Reaches(s, es, t)
    ensures forall i: nat, j: nat ::
      i < |t.ps| && j < |t.ps| && t.ps[i].state.Sleeping? && t.ps[i].chan == OnProc(i) ==> !IsZombieChild(t.ps, i, j)
    ensures forall i: nat :: i < |t.ps| && t.ps[i].parent != NOPARENT ==>
      0 <= t.ps[i].parent < |t.ps| && Live(t.ps[t.ps[i].parent])
    ensures t.exits.Keys == t.reaped.Keys + ZombiePids(t.ps) && t.reaped.Keys !! ZombiePids(t.ps)
    ensures forall pid :: pid in t.reaped ==> pid in t.exits && t.reaped[pid] == t.exits[pid]
  {
    BootInv(s);
    RunInv(s, es, t);
    hide Reaches, PidOk, PidsDistinct;
    forall i: nat | i < |t.ps| && t.ps[i].state.Sleeping? && t.ps[i].chan == OnProc(i) ensures !HasZombie(t.ps, i) {
      assert WaitOk(t, i);
    }
    forall i: nat | i < |t.ps| && t.ps[i].parent != NOPARENT
      ensures 0 <= t.ps[i].parent < |t.ps| && Live(t.ps[t.ps[i].parent])
    {
      assert ParentOk(t, i);
      if t.ps[i].state.Embryo? { assert ForkerOk(t, i); }
    }
    LogSets(t);
  }

  lemma LogSets(t: State)
    requires Inv(t)
    ensures t.exits.Keys == t.reaped.Keys + ZombiePids(t.ps) && t.reaped.Keys !! ZombiePids(t.ps)
    ensures forall pid :: pid in t.reaped ==> pid in t.exits && t.reaped[pid] == t.exits[pid]
  {
    hide ParentOk, ForkOk, ForkerOk, WaitOk, PidOk, PidsDistinct;
    forall i: nat | i < |t.ps| && t.ps[i].state == Zombie ensures t.ps[i].pid in t.exits && t.ps[i].pid !in t.reaped {
      assert LogOk(t, i);
    }
    forall pid | pid in t.exits
      ensures (pid in t.reaped ==> t.reaped[pid] == t.exits[pid]) && (pid in t.reaped || pid in ZombiePids(t.ps))
    {
      assert ExitOk(t, pid);
    }
  }

  /** Reaping takes an exit that no wait has reported, and reports its pid and status. */
  lemma ReapedOnce(s: State, p: nat, stat: bool)
    requires Inv(s) && Enabled(s, Wait(p, stat)) && FindZombie(s.ps, p, 0) < |s.ps|
    ensures var c, t := s.ps[FindZombie(s.ps, p, 0)], Step(s, Wait(p, stat));
      && c.pid !in s.reaped && c.pid in s.exits && s.exits[c.pid] == c.status
      && t.reaped.Keys == s.reaped.Keys + {c.pid} && t.reaped[c.pid] == c.status
  {
    hide ParentOk, ForkOk, ForkerOk, WaitOk, PidOk, PidsDistinct, ExitOk;
    assert LogOk(s, FindZombie(s.ps, p, 0));
  }

  // ---- time accounting ----

  function Charged(p: Proc): int { p.stime + p.retime + p.rutime }

  /** Every tick since a process was forked is charged to one of its three states, until it exits. */
  ghost predicate TimeOk(p: Proc, ticks: int) {
    (Live(p) ==> Charged(p) == ticks - p.ctime) && (p.state.Zombie? ==> Charged(p) == p.ttime - p.ctime)
  }

  ghost predicate TimesOk(s: State) {
    forall i :: 0 <= i < |s.ps| ==> TimeOk(s.ps[i], s.ticks)
  }

  /** kill of a process that has exited at an earlier tick, which overwrites its termination time. */
  predicate KillsZombie(s: State, e: Event) {
    e.Kill? && var i := FindPid(s.ps, e.pid, 0); i < |s.ps| && s.ps[i].state.Zombie? && s.ps[i].ttime != s.ticks
  }

  lemma TimeExit(s: State, me: nat, status: int, i: nat)
    requires Enabled(s, Exit(me, status)) && i < |s.ps| && TimeOk(s.ps[i], s.ticks)
    ensures TimeOk(Exited(s.ps, me, s.init, s.ticks, status)[i], s.ticks)
  {
    hide HasZombie;
  }

  lemma TimeStep(s: State, e: Event, i: nat)
    requires Enabled(s, e) && i < |s.ps| && TimeOk(s.ps[i], s.ticks) && !e.Exit? && !e.Kill?
    ensures |Step(s, e).ps| == |s.ps| && TimeOk(Step(s, e).ps[i], Step(s, e).ticks)
  {
    hide FindPid, FindUnused, FindZombie, HasKids;
  }

  lemma TimeKill(s: State, pid: nat)
    requires TimesOk(s)
    ensures TimesOk(Step(s, Kill(pid))) <==> !KillsZombie(s, Kill(pid))
  {
    hide FindPid;
    var i, t := FindPid(s.ps, pid, 0), Step(s, Kill(pid));
    if i < |s.ps| {
      assert TimeOk(s.ps[i], s.ticks);
      assert TimeOk(t.ps[i], t.ticks) <==> !KillsZombie(s, Kill(pid));
    }
  }

  /** A step keeps the accounts exactly when it is not such a kill. */
  lemma TimesExactly(s: State, e: Event)
    requires TimesOk(s) && Enabled(s, e)
    ensures TimesOk(Step(s, e)) <==> !KillsZombie(s, e)
  {
    hide TimeOk, Exited, FindPid;
    if e.Kill? {
      TimeKill(s, e.pid);
    } else {
      var t := Step(s, e);
      forall i: nat | i < |s.ps| ensures TimeOk(t.ps[i], t.ticks) {
        if e.Exit? { TimeExit(s, e.p, e.status, i); } else { TimeStep(s, e, i); }
      }
    }
  }

  /** One more step in front of a run. */
  lemma StepFirst(s: State, e: Event, es: seq<Event>, t: State)
    requires Enabled(s, e) && Reaches(Step(s, e), es, t)
    ensures Reaches(s, [e] + es, t)
  {
    hide Step, Enabled;
    assert ([e] + es)[1..] == es;
  }

  /** Init forks a child, the child exits. */
  lemma ChildExits(s: State) returns (es: seq<Event>, t: State)
    requires Booted(s) && |s.ps| >= 2
    ensures forall u, rest :: Reaches(t, rest, u) ==> Reaches(s, es + rest, u)
    ensures forall e :: e in es ==> !e.Kill?
    ensures |t.ps| == |s.ps| && t.ps[0].pid == 1 && t.ticks == s.ticks
    ensures t.ps[1].state == Zombie && t.ps[1].pid == 2 && t.ps[1].ttime == t.ticks
  {
    var s1 := Step(s, Schedule(0));
    assert FindUnused(s1.ps, 1) == 1;
    var s2 := Step(s1, ForkBegin(0));
    var s3 := Step(s2, ForkLink(1));
    var s4 := Step(s3, ForkEnd(1));
    var s5 := Step(s4, Schedule(1));
    hide FindUnused, HasZombie;
    t := Step(s5, Exit(1, 0));
    es := [Schedule(0), ForkBegin(0), ForkLink(1), ForkEnd(1), Schedule(1), Exit(1, 0)];
    forall u, rest | Reaches(t, rest, u) ensures Reaches(s, es + rest, u) {
      var r5 := [Exit(1, 0)] + rest;
      StepFirst(s5, Exit(1, 0), rest, u);
      StepFirst(s4, Schedule(1), r5, u);
      StepFirst(s3, ForkEnd(1), [Schedule(1)] + r5, u);
      StepFirst(s2, ForkLink(1), [ForkEnd(1)] + ([Schedule(1)] + r5), u);
      StepFirst(s1, ForkBegin(0), [ForkLink(1)] + ([ForkEnd(1)] + ([Schedule(1)] + r5)), u);
      StepFirst(s, Schedule(0), [ForkBegin(0)] + ([ForkLink(1)] + ([ForkEnd(1)] + ([Schedule(1)] + r5))), u);
      assert es + rest == [Schedule(0)] + ([ForkBegin(0)] + ([ForkLink(1)] + ([ForkEnd(1)] + ([Schedule(1)] + r5))));
    }
  }

  /** From any boot with room for a second process such a kill can happen: init forks a child, the child
      exits, a tick passes, and the zombie is killed. The accounts are right until then. */
  lemma KilledZombie(s: State) returns (es: seq<Event>, t: State)
    requires Booted(s) && |s.ps| >= 2
    ensures Reaches(s, es, t) && Inv(t) && TimesOk(t) && Enabled(t, Kill(2)) && !TimesOk(Step(t, Kill(2)))
  {
    hide TimesOk, Inv, Booted;
    var fs, u := ChildExits(s);
    t := Step(u, Tick);
    es := fs + [Tick];
    StepFirst(u, Tick, [], t);
    assert [Tick] + [] == [Tick];
    BootInv(s);
    RunInv(s, es, t);
    BootTimes(s);
    NoKills(s, es, t);
    assert FindPid(t.ps, 2, 1) == 1;
    assert KillsZombie(t, Kill(2));
    TimesExactly(t, Kill(2));
  }

  lemma {:induction false} NoKills(s: State, es: seq<Event>, t: State)
    requires TimesOk(s) && Reaches(s, es, t) && forall e :: e in es ==> !e.Kill?
    ensures TimesOk(t)
    decreases |es|
  {
    hide Step, TimesOk;
    if es != [] {
      TimesExactly(s, es[0]);
      NoKills(Step(s, es[0]), es[1..], t);
    }
  }

  /** A run in which no zombie is killed. */
  ghost predicate ReachesSparing(s: State, es: seq<Event>, t: State)
    decreases |es|
  {
    if es == [] then t == s else
      Enabled(s, es[0]) && !KillsZombie(s, es[0]) && ReachesSparing(Step(s, es[0]), es[1..], t)
  }

  lemma {:induction false} TimesRun(s: State, es: seq<Event>, t: State)
    requires TimesOk(s) && ReachesSparing(s, es, t)
    ensures TimesOk(t)
    decreases |es|
  {
    hide Step, TimesOk, KillsZombie;
    if es != [] {
      TimesExactly(s, es[0]);
      TimesRun(Step(s, es[0]), es[1..], t);
    }
  }

  lemma BootTimes(s: State)
    requires Booted(s)
    ensures TimesOk(s)
  {
    forall i | 0 <= i < |s.ps| ensures TimeOk(s.ps[i], s.ticks) {
      assert i > 0 ==> s.ps[i].state == Unused;
    }
  }

  /** Time in every such run from boot: the three counters add up to the age of a live process, and for a
      zombie to its whole life. */
  lemma TimesAlways(s: State, es: seq<Event>, t: State)
    requires Booted(s) && ReachesSparing(s, es, t)
    ensures forall i :: 0 <= i < |t.ps| && Live(t.ps[i]) ==> Charged(t.ps[i]) == t.ticks - t.ps[i].ctime
    ensures forall i :: 0 <= i < |t.ps| && t.ps[i].state.Zombie? ==> Charged(t.ps[i]) == t.ps[i].ttime - t.ps[i].ctime
  {
    hide ReachesSparing, Booted, Charged, Live;
    BootTimes(s);
    TimesRun(s, es, t);
    forall i | 0 <= i < |t.ps| ensures TimeOk(t.ps[i], t.ticks) {
    }
  }
}
