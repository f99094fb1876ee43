/** Single processes over whole runs of the process table, told by the events alone: what wait reports, what each
    tick is charged to, and when the killed flag is set and a process sleeps. */
module Lives {
  import opened Processes

  /** A run with all its states: event k leads from tr[k] to tr[k + 1]. */
  ghost predicate Trace(tr: seq<State>, es: seq<Event>) {
    && |tr| == |es| + 1 && (forall k :: 0 <= k < |es| ==> Follows(tr, es, k))
  }

  ghost predicate Follows(tr: seq<State>, es: seq<Event>, k: nat)
    requires k < |es| && |tr| == |es| + 1
  {
    Enabled(tr[k], es[k]) && tr[k + 1] == Step(tr[k], es[k])
  }

  /** Every run has its states. */
  lemma {:induction false} TraceOf(s: State, es: seq<Event>, t: State) returns (tr: seq<State>)
    requires Reaches(s, es, t)
    ensures Trace(tr, es) && tr[0] == s && tr[|es|] == t
    decreases |es|
  {
    hide Step, Enabled;
    if es == [] {
      tr := [s];
    } else {
      var rest := TraceOf(Step(s, es[0]), es[1..], t);
      tr := [s] + rest;
      forall k: nat | k < |es| ensures Follows(tr, es, k) {
        if k > 0 { assert Follows(rest, es[1..], k - 1); }
      }
    }
  }

  lemma {:induction false} TraceInv(tr: seq<State>, es: seq<Event>, n: nat)
    requires Trace(tr, es) && Inv(tr[0]) && n <= |es|
    ensures Inv(tr[n]) && |tr[n].ps| == |tr[0].ps|
  {
    hide Inv, Step, Enabled;
    if n > 0 {
      TraceInv(tr, es, n - 1);
      assert Follows(tr, es, n - 1);
      StepInv(tr[n - 1], es[n - 1]);
      SameSize(tr[n - 1], es[n - 1]);
    }
  }

  lemma SameSize(s: State, e: Event)
    requires Enabled(s, e)
    ensures |Step(s, e).ps| == |s.ps|
  {
    hide FindPid, FindUnused, FindZombie, HasKids;
  }

  /** The event is a kill that finds slot i. */
  predicate Hits(s: State, e: Event, i: nat) { e.Kill? && FindPid(s.ps, e.pid, 0) == i }

  /** The event is a wait that reaps slot i. */
  predicate Reaps(s: State, e: Event, i: nat) { e.Wait? && FindZombie(s.ps, e.p, 0) == i }

  // ---- the status that wait reports ----

  lemma ZombieStep(s: State, e: Event, i: nat)
    requires Enabled(s, e) && i < |s.ps| && |Step(s, e).ps| == |s.ps| && Step(s, e).ps[i].state == Zombie
    ensures var p, q := s.ps[i], Step(s, e).ps[i];
      q.pid == p.pid && ((p.state == Zombie && q.status == p.status) || e == Exit(i, q.status))
  {
    hide FindPid, FindUnused, FindZombie, HasKids, HasZombie;
  }

  /** A zombie's status is the argument of an exit of its own. */
  lemma {:induction false} ZombieExited(tr: seq<State>, es: seq<Event>, i: nat, n: nat) returns (m: nat)
    requires Trace(tr, es) && Booted(tr[0]) && n <= |es| && i < |tr[0].ps| == |tr[n].ps| && tr[n].ps[i].state == Zombie
    ensures m < n && |tr[m].ps| == |tr[0].ps|
    ensures es[m] == Exit(i, tr[n].ps[i].status) && tr[m].ps[i].pid == tr[n].ps[i].pid
  {
    BootSlots(tr[0], i);
    BootInv(tr[0]);
    hide Step, Enabled, Inv, Booted;
    TraceInv(tr, es, n - 1);
    assert Follows(tr, es, n - 1);
    ZombieStep(tr[n - 1], es[n - 1], i);
    if es[n - 1] == Exit(i, tr[n].ps[i].status) { m := n - 1; } else { m := ZombieExited(tr, es, i, n - 1); }
  }

  lemma BootSlots(s: State, i: nat)
    requires Booted(s) && i < |s.ps|
    ensures s.ps[i].state == Unused || s.ps[i].state == Runnable
    ensures !s.ps[i].killed
  {
  }

  /** In every run from boot, when wait reaps a child it reports what the child gave to exit: the run holds an exit
      with that status by the process of that pid. */
  lemma StatusReported(tr: seq<State>, es: seq<Event>, n: nat, c: nat) returns (m: nat)
    requires Trace(tr, es) && Booted(tr[0]) && n < |es| && c < |tr[n].ps| && Reaps(tr[n], es[n], c)
    ensures m < n && c < |tr[m].ps| && es[m].Exit? && es[m].p == c && tr[m].ps[c].pid == tr[n].ps[c].pid
    ensures tr[n].ps[c].pid in tr[n + 1].reaped && tr[n + 1].reaped[tr[n].ps[c].pid] == es[m].status
  {
    hide Step, Enabled, Inv, FindZombie;
    BootInv(tr[0]);
    TraceInv(tr, es, n);
    m := ZombieExited(tr, es, c, n);
    assert Follows(tr, es, n);
    ReapedStatus(tr[n], es[n], c);
  }

  lemma ReapedStatus(s: State, e: Event, c: nat)
    requires Enabled(s, e) && c < |s.ps| && Reaps(s, e, c)
    ensures s.ps[c].pid in Step(s, e).reaped && Step(s, e).reaped[s.ps[c].pid] == s.ps[c].status
  {
    hide FindZombie;
  }

  // ---- what the ticks are charged to ----

  /** How many of the events from k to n are ticks at which slot i was in the given state. */
  ghost function Ticks(tr: seq<State>, es: seq<Event>, i: nat, st: Status, k: nat, n: nat): nat
    requires k <= n <= |es| && |tr| == |es| + 1
  {
    if k == n then 0
    else
      Ticks(tr, es, i, st, k, n - 1) +
      if es[n - 1].Tick? && i < |tr[n - 1].ps| && tr[n - 1].ps[i].state == st then 1 else 0
  }

  /** A process proper, not an unused slot or the embryo of one. */
  predicate Started(p: Proc) { Live(p) || p.state.Zombie? }

  lemma ChargeStep(s: State, e: Event, i: nat)
    requires Inv(s) && Enabled(s, e) && i < |s.ps| == |Step(s, e).ps| && Started(s.ps[i])
    requires Step(s, e).ps[i].pid == s.ps[i].pid
    ensures var p, q := s.ps[i], Step(s, e).ps[i];
      && Started(q) && q.ctime == p.ctime
      && q.rutime == p.rutime + (if e.Tick? && p.state == Running then 1 else 0)
      && q.stime == p.stime + (if e.Tick? && p.state == Sleeping then 1 else 0)
      && q.retime == p.retime + (if e.Tick? && p.state == Runnable then 1 else 0)
  {
    assert ForkOk(s, i) && PidOk(s, i);
    hide Inv, FindPid, FindUnused, FindZombie, HasKids, HasZombie;
    if e.Exit? {
      ExitCharges(s, e, i);
    } else {
      hide Exited, Left;
      if e.Wait? { WaitCharges(s, e, i); }
    }
  }

  lemma ExitCharges(s: State, e: Event, i: nat)
    requires Enabled(s, e) && e.Exit? && i < |s.ps| && Started(s.ps[i])
    ensures var p, q := s.ps[i], Step(s, e).ps[i];
      Started(q) && q.ctime == p.ctime && q.rutime == p.rutime && q.stime == p.stime && q.retime == p.retime
  {
    hide HasZombie, FindPid, FindUnused, FindZombie, HasKids;
  }

  lemma WaitCharges(s: State, e: Event, i: nat)
    requires Enabled(s, e) && e.Wait? && i < |s.ps| && s.ps[i].pid > 0 && Step(s, e).ps[i].pid == s.ps[i].pid
    ensures var p, q := s.ps[i], Step(s, e).ps[i];
      && (q.state == p.state || q.state == Sleeping)
      && q.ctime == p.ctime && q.rutime == p.rutime && q.stime == p.stime && q.retime == p.retime
  {
    hide HasZombie, FindPid, FindUnused, FindZombie, HasKids, Exited, Left;
  }

  lemma {:induction false} Charges(tr: seq<State>, es: seq<Event>, i: nat, k: nat, n: nat)
    requires Trace(tr, es) && Inv(tr[0]) && k <= n <= |es| && (forall j :: 0 <= j < |tr| ==> i < |tr[j].ps|)
    requires Started(tr[k].ps[i]) && forall j :: k <= j <= n ==> tr[j].ps[i].pid == tr[k].ps[i].pid
    ensures var p, q := tr[k].ps[i], tr[n].ps[i];
      && Started(q) && q.ctime == p.ctime
      && q.rutime == p.rutime + Ticks(tr, es, i, Running, k, n)
      && q.stime == p.stime + Ticks(tr, es, i, Sleeping, k, n)
      && q.retime == p.retime + Ticks(tr, es, i, Runnable, k, n)
    decreases n
  {
    hide Step, Enabled, Inv, Started;
    if k < n {
      Charges(tr, es, i, k, n - 1);
      TraceInv(tr, es, n - 1);
      assert Follows(tr, es, n - 1);
      assert tr[n].ps[i].pid == tr[n - 1].ps[i].pid;
      SameSize(tr[n - 1], es[n - 1]);
      ChargeStep(tr[n - 1], es[n - 1], i);
    }
  }

  /** In every run from boot, as long as the process that fork started in slot i is there: its running time is the
      number of ticks at which it was running, its sleeping time of those at which it was asleep, its ready time
      of those at which it was runnable, and its creation time that of the fork. */
  lemma Accounts(tr: seq<State>, es: seq<Event>, i: nat, m: nat, n: nat)
    requires Trace(tr, es) && Booted(tr[0]) && m < n <= |es| && i < |tr[0].ps| && es[m] == ForkEnd(i)
    requires i < |tr[m + 1].ps|
    requires forall j :: m < j <= n ==> i < |tr[j].ps| && tr[j].ps[i].pid == tr[m + 1].ps[i].pid
    ensures i < |tr[n].ps| && var p := tr[n].ps[i];
      && p.rutime == Ticks(tr, es, i, Running, m + 1, n)
      && p.stime == Ticks(tr, es, i, Sleeping, m + 1, n)
      && p.retime == Ticks(tr, es, i, Runnable, m + 1, n)
      && p.ctime == tr[m].ticks
  {
    hide Inv;
    BootInv(tr[0]);
    Sizes(tr, es, i);
    assert Follows(tr, es, m);
    hide Step, Enabled;
    Charges(tr, es, i, m + 1, n);
  }

  /** The same for the first process, from boot on. */
  lemma InitAccounts(tr: seq<State>, es: seq<Event>, n: nat)
    requires Trace(tr, es) && Booted(tr[0]) && n <= |es|
    ensures |tr[n].ps| > 0 && var p := tr[n].ps[0];
      && p.rutime == Ticks(tr, es, 0, Running, 0, n)
      && p.stime == Ticks(tr, es, 0, Sleeping, 0, n)
      && p.retime == Ticks(tr, es, 0, Runnable, 0, n)
  {
    hide Inv, Step, Enabled;
    BootInv(tr[0]);
    Sizes(tr, es, 0);
    forall j | 0 <= j <= n ensures tr[j].ps[0].pid == tr[0].ps[0].pid {
      InitStays(tr, es, j);
    }
    Charges(tr, es, 0, 0, n);
  }

  lemma {:induction false} InitStays(tr: seq<State>, es: seq<Event>, n: nat)
    requires Trace(tr, es) && Booted(tr[0]) && n <= |es|
    ensures tr[n].init == 0 && |tr[n].ps| > 0 && tr[n].ps[0].pid == tr[0].ps[0].pid
  {
    BootInv(tr[0]);
    TraceInv(tr, es, n);
    hide Step, Enabled, Booted;
    if n > 0 {
      InitStays(tr, es, n - 1);
      TraceInv(tr, es, n - 1);
      assert Follows(tr, es, n - 1);
      LiveStays(tr[n - 1], es[n - 1]);
    }
  }

  lemma LiveStays(s: State, e: Event)
    requires Inv(s) && Enabled(s, e) && |Step(s, e).ps| == |s.ps|
    ensures Step(s, e).init == s.init && Step(s, e).ps[s.init].pid == s.ps[s.init].pid
  {
    assert ForkOk(s, s.init);
    hide FindPid, FindUnused, FindZombie, HasKids, HasZombie, ParentOk, ForkOk, WaitOk, PidOk, LogOk, ExitOk;
    hide PidsDistinct;
  }

  lemma Sizes(tr: seq<State>, es: seq<Event>, i: nat)
    requires Trace(tr, es) && Inv(tr[0]) && i < |tr[0].ps|
    ensures forall j :: 0 <= j < |tr| ==> i < |tr[j].ps|
  {
    hide Inv, Step, Enabled;
    forall j | 0 <= j < |tr| ensures i < |tr[j].ps| {
      TraceInv(tr, es, j);
    }
  }

  // ---- the killed flag ----

  lemma KilledStep(s: State, e: Event, i: nat)
    requires Enabled(s, e) && i < |s.ps| == |Step(s, e).ps|
    ensures Step(s, e).ps[i].killed <==> Hits(s, e, i) || (s.ps[i].killed && !Reaps(s, e, i))
  {
    hide FindPid, FindUnused, FindZombie, HasKids, HasZombie;
  }

  /** Slot i was hit by a kill, and has not been reaped since. */
  ghost predicate HitSince(tr: seq<State>, es: seq<Event>, i: nat, j: nat, n: nat)
    requires j < n <= |es| && |tr| == |es| + 1
  {
    Hits(tr[j], es[j], i) && forall l :: j < l < n ==> !Reaps(tr[l], es[l], i)
  }

  /** In every run from boot a slot's killed flag is set exactly when a kill has found it and no wait has reaped it
      since. */
  lemma {:induction false} KilledExactly(tr: seq<State>, es: seq<Event>, i: nat, n: nat)
    requires Trace(tr, es) && Booted(tr[0]) && n <= |es| && i < |tr[0].ps| == |tr[n].ps|
    ensures tr[n].ps[i].killed <==> exists j: nat :: j < n && HitSince(tr, es, i, j, n)
  {
    hide Step, Enabled, Inv, Hits, Reaps;
    if n == 0 {
      BootSlots(tr[0], i);
    } else {
      BootInv(tr[0]);
      TraceInv(tr, es, n - 1);
      assert Follows(tr, es, n - 1);
      KilledStep(tr[n - 1], es[n - 1], i);
      KilledExactly(tr, es, i, n - 1);
      if tr[n].ps[i].killed {
        if Hits(tr[n - 1], es[n - 1], i) {
          assert HitSince(tr, es, i, n - 1, n);
        } else {
          var j: nat :| j < n - 1 && HitSince(tr, es, i, j, n - 1);
          assert HitSince(tr, es, i, j, n);
        }
      }
      if j: nat :| j < n && HitSince(tr, es, i, j, n) {
        if j < n - 1 { assert HitSince(tr, es, i, j, n - 1); }
      }
    }
  }

  // ---- sleep and wakeup ----

  predicate Asleep(p: Proc, k: nat) { p.state == Sleeping && p.chan == Other(k) }

  lemma SleepStep(s: State, e: Event, i: nat, k: nat)
    requires Inv(s) && Enabled(s, e) && i < |s.ps| == |Step(s, e).ps|
    ensures Asleep(Step(s, e).ps[i], k) <==>
      e == Sleep(i, k) || (Asleep(s.ps[i], k) && e != Wakeup(k) && !Hits(s, e, i))
  {
    assert ForkOk(s, i);
    hide Inv, FindPid, FindUnused, FindZombie, HasKids, HasZombie;
  }

  ghost predicate SleepsSince(tr: seq<State>, es: seq<Event>, i: nat, k: nat, j: nat, n: nat)
    requires j < n <= |es| && |tr| == |es| + 1
  {
    es[j] == Sleep(i, k) && forall l :: j < l < n ==> es[l] != Wakeup(k) && !Hits(tr[l], es[l], i)
  }

  /** In every run from boot a process sleeps on a channel exactly when it went to sleep there and since then
      neither the channel was woken nor the process killed. */
  lemma {:induction false} AsleepExactly(tr: seq<State>, es: seq<Event>, i: nat, k: nat, n: nat)
    requires Trace(tr, es) && Booted(tr[0]) && n <= |es| && i < |tr[0].ps| == |tr[n].ps|
    ensures Asleep(tr[n].ps[i], k) <==> exists j: nat :: j < n && SleepsSince(tr, es, i, k, j, n)
    decreases n
  {
    hide Step, Enabled, Inv, Hits;
    if n == 0 {
      BootSlots(tr[0], i);
    } else {
      BootInv(tr[0]);
      TraceInv(tr, es, n - 1);
      assert Follows(tr, es, n - 1);
      SleepStep(tr[n - 1], es[n - 1], i, k);
      AsleepExactly(tr, es, i, k, n - 1);
      if Asleep(tr[n].ps[i], k) {
        if es[n - 1] == Sleep(i, k) {
          assert SleepsSince(tr, es, i, k, n - 1, n);
        } else {
          var j: nat :| j < n - 1 && SleepsSince(tr, es, i, k, j, n - 1);
          assert SleepsSince(tr, es, i, k, j, n);
        }
      }
      if j: nat :| j < n && SleepsSince(tr, es, i, k, j, n) {
        if j < n - 1 { assert SleepsSince(tr, es, i, k, j, n - 1); }
      }
    }
  }

  // ---- running ----

  /** The event takes process i off the processor: it yields, goes to sleep, exits, or finds in wait that it has
      children but no zombie among them. */
  predicate Leaves(s: State, e: Event, i: nat) {
    match e
    case Yield(p) => p == i
    case Sleep(p, _) => p == i
    case Exit(p, _) => p == i
    case Wait(p, _) =>
      p == i < |s.ps| && FindZombie(s.ps, i, 0) == |s.ps| && HasKids(s.ps, i) && !s.ps[i].killed
    case _ => false
  }

  lemma RunStep(s: State, e: Event, i: nat)
    requires Inv(s) && Enabled(s, e) && i < |s.ps| == |Step(s, e).ps|
    ensures Step(s, e).ps[i].state == Running <==>
      e == Schedule(i) || (s.ps[i].state == Running && !Leaves(s, e, i))
  {
    assert ForkOk(s, i);
    hide Inv, FindPid, FindUnused, FindZombie, HasKids, HasZombie;
  }

  ghost predicate RunsSince(tr: seq<State>, es: seq<Event>, i: nat, j: nat, n: nat)
    requires j < n <= |es| && |tr| == |es| + 1
  {
    es[j] == Schedule(i) && forall l :: j < l < n ==> !Leaves(tr[l], es[l], i)
  }

  /** In every run from boot a process is running exactly when it was scheduled and has not left the processor
      since; in particular neither a kill nor a wakeup nor a tick stops it. */
  lemma {:induction false} RunningExactly(tr: seq<State>, es: seq<Event>, i: nat, n: nat)
    requires Trace(tr, es) && Booted(tr[0]) && n <= |es| && i < |tr[0].ps| == |tr[n].ps|
    ensures tr[n].ps[i].state == Running <==> exists j: nat :: j < n && RunsSince(tr, es, i, j, n)
  {
    hide Step, Enabled, Inv, Leaves;
    if n == 0 {
      BootSlots(tr[0], i);
    } else {
      BootInv(tr[0]);
      TraceInv(tr, es, n - 1);
      assert Follows(tr, es, n - 1);
      RunStep(tr[n - 1], es[n - 1], i);
      RunningExactly(tr, es, i, n - 1);
      if tr[n].ps[i].state == Running {
        if es[n - 1] == Schedule(i) {
          assert RunsSince(tr, es, i, n - 1, n);
        } else {
          var j: nat :| j < n - 1 && RunsSince(tr, es, i, j, n - 1);
          assert RunsSince(tr, es, i, j, n);
        }
      }
      if j: nat :| j < n && RunsSince(tr, es, i, j, n) {
        if j < n - 1 { assert RunsSince(tr, es, i, j, n - 1); }
      }
    }
  }
}
