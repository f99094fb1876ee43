/** Whole runs of the file system's log: operations begin, log blocks and end, commit makes its writes one
    at a time, and the machine may crash at any point and recover, crashing again any number of times. */
module Durable {
  import opened Bytes
  import opened RedoLog
  import L = Log

  /** now: the cache and the disk; lh: the blocks logged; ops: the operations outstanding. While commit runs,
      start is what now was when it began and k how many writes it has made; otherwise start is now. saved: what
      the cache showed at the last header write. */
  datatype World = World(
    now: L.Snap, lh: seq<uint>, ops: set<nat>, committing: bool, start: L.Snap, k: nat, saved: Disk)

  datatype Event =
    | Begin(op: nat)
    | Update(op: nat, b: uint, data: Block)
    | End(op: nat)
    | WriteNext
    | Finish
    | Crash(ks: seq<nat>)

  /** The writes of the commit that runs, or would run now. */
  ghost function List(w: World, a: Area): seq<Write>
    requires L.Open(w.start, a, w.lh)
  {
    if w.lh == [] then [] else CommitWrites(w.start.disk[a.start], a, w.lh, L.Gather(w.start.view, w.lh))
  }

  ghost predicate Good(w: World, a: Area) {
    && L.Open(w.start, a, w.lh) && GoodLog(w.start.disk, a) && OnDisk(w.start.disk, a) == []
    && L.PutSome(w.start, w.now, List(w, a), w.k)
    && (w.committing ==> w.ops == {}) && (!w.committing ==> w.k == 0)
    && |w.saved| == |w.start.disk|
    && (forall b :: Home(w, a, b) ==> AsSaved(w, b))
  }

  predicate Home(w: World, a: Area, b: nat) { b < |w.saved| && !a.Has(b) }

  /** A block that is not pinned is as on disk, and what is saved is what the header decides. */
  ghost predicate AsSaved(w: World, b: nat)
    requires b < |w.saved|
  {
    && b < |w.start.disk| == |w.start.view| && (b !in w.start.pins ==> w.start.view[b] == w.start.disk[b])
    && w.saved[b] == if w.k <= |w.lh| then w.start.disk[b] else w.start.view[b]
  }

  ghost predicate Enabled(w: World, a: Area, e: Event)
    requires Good(w, a)
  {
    match e
    case Begin(op) => op !in w.ops && !w.committing
    case Update(op, b, _) =>
      op in w.ops && |w.lh| < LOGSIZE && |w.lh| < a.size - 1 && b < |w.now.disk| && !a.Has(b)
    case End(op) => op in w.ops
    case WriteNext => w.committing && w.k < |List(w, a)|
    case Finish => w.committing && w.k == |List(w, a)|
    case Crash(_) => true
  }

  /** The disk after a crash and recoveries. */
  ghost function Rebooted(w: World, a: Area, ks: seq<nat>): (d: Disk)
    requires Good(w, a)
    ensures |d| == |w.saved| && GoodLog(d, a) && OnDisk(d, a) == []
  {
    CrashedGood(w, a);
    Reboot(w.now.disk, a, ks)
  }

  ghost function Step(w: World, a: Area, e: Event): World
    requires Good(w, a) && Enabled(w, a, e)
  {
    match e
    case Begin(op) => w.(ops := w.ops + {op})
    case Update(op, b, data) =>
      NowIs(w, a);
      var s := L.Changed(w.now, b, data);
      w.(now := s, start := s, lh := if b in w.lh then w.lh else w.lh + [b])
    case End(op) => w.(ops := w.ops - {op}, committing := w.ops - {op} == {})
    case WriteNext =>
      var x := List(w, a)[w.k];
      L.PutStep(w.start, w.now, List(w, a), w.k);
      w.(now := L.Put(w.now, x.blockno, x.data), k := w.k + 1, saved := if w.k == |w.lh| then w.now.view else w.saved)
    case Finish => w.(lh := [], committing := false, start := w.now, k := 0)
    case Crash(ks) =>
      var d := Rebooted(w, a, ks);
      World(L.Snap(d, d, {}, []), [], {}, false, L.Snap(d, d, {}, []), 0, w.saved)
  }

  lemma NowIs(w: World, a: Area)
    requires Good(w, a)
    ensures |w.now.view| == |w.now.disk| == |w.start.disk|
    ensures w.k == 0 ==> w.now == w.start
  {
  }

  ghost function Whole(w: World, a: Area): seq<Write>
    requires L.Open(w.start, a, w.lh)
  {
    CommitWrites(w.start.disk[a.start], a, w.lh, L.Gather(w.start.view, w.lh))
  }

  lemma ListIs(w: World, a: Area)
    requires Good(w, a)
    ensures |Whole(w, a)| == 2 * |w.lh| + 2 && |List(w, a)| == if w.lh == [] then 0 else 2 * |w.lh| + 2
    ensures L.PutSome(w.start, w.now, Whole(w, a), w.k)
  {
    hide PutHeader, Word, OnDisk, L.PutAll;
    CommitInRange(w.start.disk, a, w.lh, L.Gather(w.start.view, w.lh));
    assert w.lh == [] ==> List(w, a)[..0] == Whole(w, a)[..0];
  }

  /** Every prefix of the list is a point that the crash theorem speaks of. */
  lemma CrashedGood(w: World, a: Area)
    requires Good(w, a)
    ensures GoodLog(w.now.disk, a) && |w.now.disk| == |w.saved|
    ensures forall ks: seq<nat>, b: nat :: Home(w, a, b) ==> Reboot(w.now.disk, a, ks)[b] == w.saved[b]
  {
    hide Reboot, OnDisk, L.Gather, CommitWrites, List;
    ListIs(w, a);
    NowIs(w, a);
    CrashAtomicity(w.start.disk, a, w.lh, L.Gather(w.start.view, w.lh), w.k, []);
    forall ks: seq<nat>, b: nat | Home(w, a, b) ensures Reboot(w.now.disk, a, ks)[b] == w.saved[b] {
      assert AsSaved(w, b);
      L.CommitCrash(w.start, a, w.lh, w.k, ks, b);
    }
  }

  // ---- every step ----

  lemma UpdateGood(w: World, a: Area, e: Event)
    requires Good(w, a) && Enabled(w, a, e) && e.Update?
    ensures Good(Step(w, a, e), a)
  {
    hide OnDisk, GoodLog, Whole, List, L.PutSome, L.Open;
    NowIs(w, a);
    var s := L.Changed(w.now, e.b, e.data).(pins := w.now.pins);
    L.OpenView(w.now, s, a, w.lh);
    L.OpenMore(s, a, w.lh, e.b);
    var t := Step(w, a, e);
    StartPrefix(t, a);
    forall b | Home(t, a, b) ensures AsSaved(t, b) {
      assert Home(w, a, b) && AsSaved(w, b);
    }
  }

  lemma StartPrefix(w: World, a: Area)
    requires L.Open(w.start, a, w.lh) && w.now == w.start && w.k == 0
    ensures L.PutSome(w.start, w.now, List(w, a), 0)
  {
    hide PutHeader, Word;
    CommitInRange(w.start.disk, a, w.lh, L.Gather(w.start.view, w.lh));
  }

  /** The header write is where what is saved changes. */
  lemma WriteGood(w: World, a: Area)
    requires Good(w, a) && Enabled(w, a, WriteNext)
    ensures Good(Step(w, a, WriteNext), a)
  {
    hide OnDisk, GoodLog, Whole, List, L.Open, L.PutSome;
    var t := Step(w, a, WriteNext);
    ListIs(w, a);
    SameList(w, t, a);
    L.PutStep(w.start, w.now, List(w, a), w.k);
    if w.k == |w.lh| { LoggedView(w, a); }
    forall b | Home(t, a, b) ensures AsSaved(t, b) {
      assert Home(w, a, b) && AsSaved(w, b);
    }
  }

  lemma SameList(w: World, t: World, a: Area)
    requires L.Open(w.start, a, w.lh) && t.start == w.start && t.lh == w.lh
    ensures L.Open(t.start, a, t.lh) && List(t, a) == List(w, a)
  {
  }

  /** Writing the log does not change what the cache shows of home blocks. */
  lemma LoggedView(w: World, a: Area)
    requires Good(w, a) && w.k == |w.lh|
    ensures |w.now.view| == |w.start.view|
    ensures forall b: nat :: Home(w, a, b) ==> w.now.view[b] == w.start.view[b]
  {
    hide PutHeader, Word, OnDisk, GoodLog, InstallWrites;
    ListIs(w, a);
    NowIs(w, a);
    var ws := Whole(w, a)[..w.k];
    forall b: nat | Home(w, a, b) ensures w.now.view[b] == w.start.view[b] {
      assert AsSaved(w, b);
      L.Untouched(w.start.view, ws, b);
    }
  }

  lemma FinishGood(w: World, a: Area)
    requires Good(w, a) && Enabled(w, a, Finish)
    ensures Good(Step(w, a, Finish), a)
  {
    hide OnDisk, GoodLog, CommitWrites, L.Gather, L.PutAll, Reboot;
    var t := Step(w, a, Finish);
    ListIs(w, a);
    NowIs(w, a);
    assert w.lh != [] ==> Whole(w, a)[..w.k] == Whole(w, a);
    if w.lh != [] { L.CommitDurable(w.start, w.now, a, w.lh); }
    StartPrefix(t, a);
    forall b | Home(t, a, b) ensures AsSaved(t, b) {
      assert Home(w, a, b) && AsSaved(w, b);
      if w.lh != [] { L.CommitKeepsView(w.start, a, w.lh, b); }
    }
  }

  lemma CrashGood(w: World, a: Area, ks: seq<nat>)
    requires Good(w, a)
    ensures Good(Step(w, a, Crash(ks)), a)
  {
    hide OnDisk, GoodLog, CommitWrites, L.Gather, L.PutAll, Reboot, List;
    var t, d := Step(w, a, Crash(ks)), Rebooted(w, a, ks);
    CrashedGood(w, a);
    DiskOpen(d, a);
    StartPrefix(t, a);
    forall b | Home(t, a, b) ensures AsSaved(t, b) {
      assert Home(w, a, b);
    }
  }

  lemma DiskOpen(d: Disk, a: Area)
    requires GoodLog(d, a) && |d| <= UINT_MOD
    ensures L.Open(L.Snap(d, d, {}, []), a, [])
  {
  }

  lemma StepGood(w: World, a: Area, e: Event)
    requires Good(w, a) && Enabled(w, a, e)
    ensures Good(Step(w, a, e), a)
  {
    hide OnDisk, GoodLog, L.Open, L.PutSome;
    match e
    case Begin(op) => SameList(w, Step(w, a, e), a); SameSaved(w, Step(w, a, e), a);
    case Update(_, _, _) => UpdateGood(w, a, e);
    case End(op) => SameList(w, Step(w, a, e), a); SameSaved(w, Step(w, a, e), a);
    case WriteNext => WriteGood(w, a);
    case Finish => FinishGood(w, a);
    case Crash(ks) => CrashGood(w, a, ks);
  }

  lemma SameSaved(w: World, t: World, a: Area)
    requires Good(w, a) && t.start == w.start && t.lh == w.lh && t.k == w.k && t.saved == w.saved
    ensures forall b :: Home(t, a, b) ==> AsSaved(t, b)
  {
    hide OnDisk, GoodLog, L.Open, L.PutSome, List;
    forall b | Home(t, a, b) ensures AsSaved(t, b) {
      assert Home(w, a, b) && AsSaved(w, b);
    }
  }

  // ---- every run ----

  ghost predicate Reaches(w: World, a: Area, es: seq<Event>, t: World)
    requires Good(w, a)
    decreases |es|
  {
    if es == [] then t == w
    else
      && Enabled(w, a, es[0])
      && (StepGood(w, a, es[0]); Reaches(Step(w, a, es[0]), a, es[1..], t))
  }

  /** A machine just booted, with nothing in the log. */
  function Boot(d: Disk): World {
    World(L.Snap(d, d, {}, []), [], {}, false, L.Snap(d, d, {}, []), 0, d)
  }

  lemma BootGood(d: Disk, a: Area)
    requires GoodLog(d, a) && OnDisk(d, a) == [] && |d| <= UINT_MOD
    ensures Good(Boot(d), a)
  {
    hide OnDisk, GoodLog;
    DiskOpen(d, a);
    StartPrefix(Boot(d), a);
  }

  lemma {:induction false} ReachesGood(w: World, a: Area, es: seq<Event>, t: World)
    requires Good(w, a) && Reaches(w, a, es, t)
    ensures Good(t, a)
    decreases |es|
  {
    hide Good, Enabled, Step;
    if es != [] {
      StepGood(w, a, es[0]);
      ReachesGood(Step(w, a, es[0]), a, es[1..], t);
    }
  }

  /** Durability. After every run from boot, whatever it did and however often it crashed, a crash now and any
      number of crashes during recovery leave every home block as the cache showed it at the last header
      write, or as it was at boot if there was none. */
  lemma EveryRun(d: Disk, a: Area, es: seq<Event>, t: World, ks: seq<nat>, b: nat)
    requires GoodLog(d, a) && OnDisk(d, a) == [] && |d| <= UINT_MOD && b < |d| && !a.Has(b)
    requires (BootGood(d, a); Reaches(Boot(d), a, es, t))
    ensures GoodLog(t.now.disk, a) && |t.saved| == |d| && |t.now.disk| == |d|
    ensures Reboot(t.now.disk, a, ks)[b] == t.saved[b]
  {
    hide Good, Reboot, OnDisk;
    BootGood(d, a);
    ReachesGood(Boot(d), a, es, t);
    ReachesSize(Boot(d), a, es, t);
    CrashedGood(t, a);
    assert Home(t, a, b);
  }

  lemma {:induction false} ReachesSize(w: World, a: Area, es: seq<Event>, t: World)
    requires Good(w, a) && Reaches(w, a, es, t)
    ensures |t.saved| == |w.saved|
    decreases |es|
  {
    if es != [] {
      StepGood(w, a, es[0]);
      NowIs(w, a);
      assert |Step(w, a, es[0]).saved| == |w.saved|;
      ReachesSize(Step(w, a, es[0]), a, es[1..], t);
    }
  }
}
