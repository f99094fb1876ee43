/** What the log is for, as a machine without one: a disk that shows every update at once and keeps those that were
    made when a commit reached its point of no return. It is read off the events of a run alone; whole runs of
    the log, commits and crashes included, refine it. */
module AtomicDisk {
  import opened Bytes
  import opened RedoLog
  import opened Durable
  import L = Log
  import Sets

  /** shown: what a reader sees; saved: what a crash leaves; blocks: the blocks updated since the last commit ended;
      k: the disk writes that a commit has made. */
  datatype Plan = Plan(shown: Disk, saved: Disk, blocks: set<uint>, k: nat)

  /** The point of no return is the first write after as many as there are blocks. */
  function Follow(p: Plan, e: Event): Plan {
    match e
    case Begin(_) => p
    case Update(_, b, data) =>
      if b < |p.shown| then p.(shown := p.shown[b := data], blocks := p.blocks + {b}) else p
    case End(_) => p
    case WriteNext => p.(k := p.k + 1, saved := if p.k == |p.blocks| then p.shown else p.saved)
    case Finish => p.(blocks := {}, k := 0)
    case Crash(_) => Plan(p.saved, p.saved, {}, 0)
  }

  function After(p: Plan, es: seq<Event>): Plan
    decreases |es|
  {
    if es == [] then p else After(Follow(p, es[0]), es[1..])
  }

  ghost predicate SameHome(w: World, a: Area, p: Plan, b: nat)
    requires b < |p.shown| == |p.saved|
  {
    && b < |w.now.view| && b < |w.saved| && (!a.Has(b) ==> p.shown[b] == w.now.view[b] && p.saved[b] == w.saved[b])
  }

  /** The log's machine looks like the plan, but for the log area. */
  ghost predicate Refines(w: World, a: Area, p: Plan) {
    && |p.shown| == |p.saved| == |w.saved| && p.k == w.k && p.blocks == Sets.AsSet(w.lh)
    && forall b :: 0 <= b < |p.shown| ==> SameHome(w, a, p, b)
  }

  /** However far the commit is, the cache shows home blocks as it did when it began. */
  lemma ViewKept(w: World, a: Area, b: nat)
    requires Good(w, a) && Home(w, a, b)
    ensures b < |w.now.view| == |w.start.view| && w.now.view[b] == w.start.view[b]
  {
    hide OnDisk, GoodLog, CommitWrites, Apply, L.Gather, AsSaved;
    ListIs(w, a);
    NowIs(w, a);
    L.CommitTargets(w.start.disk[a.start], w.start.view, a, w.lh);
    var ws := Whole(w, a);
    forall i | 0 <= i < w.k && ws[..w.k][i].blockno == b ensures ws[..w.k][i].data == w.start.view[b] {
      assert ws[..w.k][i] == ws[i];
    }
    L.Untouched(w.start.view, ws[..w.k], b);
  }

  lemma Blocks(w: World, a: Area)
    requires Good(w, a)
    ensures |Sets.AsSet(w.lh)| == |w.lh|
  {
    hide OnDisk, GoodLog, L.PutSome, AsSaved;
    Sets.DistinctCount(w.lh);
  }

  lemma UpdateRefines(w: World, a: Area, e: Event, p: Plan)
    requires Good(w, a) && Enabled(w, a, e) && e.Update? && Refines(w, a, p)
    ensures Refines(Step(w, a, e), a, Follow(p, e))
  {
    hide OnDisk, GoodLog, L.PutSome, AsSaved, L.Open;
    NowIs(w, a);
    var t, q := Step(w, a, e), Follow(p, e);
    assert Sets.AsSet(t.lh) == Sets.AsSet(w.lh) + {e.b};
    forall b | 0 <= b < |q.shown| ensures SameHome(t, a, q, b) {
      assert SameHome(w, a, p, b);
    }
  }

  lemma WriteRefines(w: World, a: Area, p: Plan)
    requires Good(w, a) && Enabled(w, a, WriteNext) && Refines(w, a, p)
    ensures Refines(Step(w, a, WriteNext), a, Follow(p, WriteNext))
  {
    hide Good, Enabled, Step;
    StepGood(w, a, WriteNext);
    Blocks(w, a);
    var t, q := Step(w, a, WriteNext), Follow(p, WriteNext);
    WriteIs(w, a);
    forall b | 0 <= b < |q.shown| ensures SameHome(t, a, q, b) {
      assert SameHome(w, a, p, b);
      NowSize(t, a);
      if !a.Has(b) {
        ViewKept(w, a, b);
        ViewKept(t, a, b);
      }
    }
  }

  /** What a disk write of commit changes, but for the disk. */
  lemma WriteIs(w: World, a: Area)
    requires Good(w, a) && Enabled(w, a, WriteNext)
    ensures var t := Step(w, a, WriteNext);
      && t.start == w.start && t.lh == w.lh && t.k == w.k + 1 && |t.saved| == |w.saved| == |w.now.view|
      && t.saved == if w.k == |w.lh| then w.now.view else w.saved
  {
    hide OnDisk, GoodLog, L.PutSome, AsSaved, L.Open, List;
    NowIs(w, a);
  }

  lemma NowSize(w: World, a: Area)
    requires Good(w, a)
    ensures |w.now.view| == |w.saved|
  {
    hide OnDisk, GoodLog, L.PutSome, AsSaved, L.Open;
    NowIs(w, a);
  }

  lemma CrashRefines(w: World, a: Area, ks: seq<nat>, p: Plan)
    requires Good(w, a) && Refines(w, a, p)
    ensures Refines(Step(w, a, Crash(ks)), a, Follow(p, Crash(ks)))
  {
    hide Good, Reboot;
    CrashedGood(w, a);
    var t, q := Step(w, a, Crash(ks)), Follow(p, Crash(ks));
    forall b | 0 <= b < |q.shown| ensures SameHome(t, a, q, b) {
      assert SameHome(w, a, p, b);
      assert !a.Has(b) ==> Home(w, a, b);
    }
  }

  lemma StepRefines(w: World, a: Area, e: Event, p: Plan)
    requires Good(w, a) && Enabled(w, a, e) && Refines(w, a, p)
    ensures Refines(Step(w, a, e), a, Follow(p, e))
  {
    hide Good;
    match e
    case Update(_, _, _) => UpdateRefines(w, a, e, p);
    case WriteNext => WriteRefines(w, a, p);
    case Crash(ks) => CrashRefines(w, a, ks, p);
    case _ =>
      var t, q := Step(w, a, e), Follow(p, e);
      assert t.now == w.now && t.saved == w.saved && q.shown == p.shown && q.saved == p.saved;
      forall b | 0 <= b < |q.shown| ensures SameHome(t, a, q, b) {
        assert SameHome(w, a, p, b);
      }
  }

  lemma {:induction false} RunRefines(w: World, a: Area, es: seq<Event>, t: World, p: Plan)
    requires Good(w, a) && Reaches(w, a, es, t) && Refines(w, a, p)
    ensures Refines(t, a, After(p, es))
    decreases |es|
  {
    hide Good, Enabled, Step, Refines, Follow;
    if es != [] {
      StepGood(w, a, es[0]);
      StepRefines(w, a, es[0], p);
      RunRefines(Step(w, a, es[0]), a, es[1..], t, Follow(p, es[0]));
    }
  }

  /** After every run from boot the cache shows each home block as the plan does, and a crash now, with any number of
      crashes during recovery, leaves it as the plan saved it. */
  lemma Atomic(d: Disk, a: Area, es: seq<Event>, t: World, ks: seq<nat>, b: nat)
    requires GoodLog(d, a) && OnDisk(d, a) == [] && |d| <= UINT_MOD && b < |d| && !a.Has(b)
    requires (BootGood(d, a); Reaches(Boot(d), a, es, t))
    ensures var p := After(Plan(d, d, {}, 0), es);
      && |p.shown| == |p.saved| == |t.now.view| == |d| && t.now.view[b] == p.shown[b]
      && GoodLog(t.now.disk, a) && |t.now.disk| == |d| && Reboot(t.now.disk, a, ks)[b] == p.saved[b]
  {
    hide Good, Reboot, OnDisk, GoodLog;
    BootGood(d, a);
    var p0 := Plan(d, d, {}, 0);
    forall c | 0 <= c < |d| ensures SameHome(Boot(d), a, p0, c) {
    }
    RunRefines(Boot(d), a, es, t, p0);
    ReachesGood(Boot(d), a, es, t);
    NowSize(t, a);
    EveryRun(d, a, es, t, ks, b);
    assert SameHome(t, a, After(p0, es), b);
  }
}
