/** Signals: the pending word, delivery on the way back to user mode, and the trap frame saved for
    sigreturn (trap.c, proc.c), as every run of sends, traps, deliveries and returns sees them. */
module Signals {
  import Bytes
  import opened Sets

  const NUMSIG := 32
  const DEFAULT: uint := 0xffff_ffff
  const DPL_USER := 3

  type uint = Bytes.uint
  type ushort = x: int | 0 <= x < 0x1_0000

  datatype TrapFrame = TrapFrame(
    edi: uint, esi: uint, ebp: uint, oesp: uint, ebx: uint, edx: uint, ecx: uint, eax: uint, gs: ushort,
    padding1: ushort, fs: ushort, padding2: ushort, es: ushort, padding3: ushort, ds: ushort, padding4: ushort,
    trapno: uint, err: uint, eip: uint, cs: ushort, padding5: ushort, eflags: uint, esp: uint, ss: ushort,
    padding6: ushort)

  // ---- the pending word ----

  function Mask(i: nat): bv32
    requires i < 32
  {
    (1 as bv32) << i
  }

  function Common(p: bv32, m: bv32): bv32 { p & m }

  predicate Has(p: bv32, m: bv32) { Common(p, m) != 0 }

  predicate IsSet(p: bv32, i: nat)
    requires i < 32
  {
    Has(p, Mask(i))
  }

  /** The signals that a pending word stands for. */
  ghost function Signals(p: bv32): set<nat> { set i: nat | i < 32 && IsSet(p, i) }

  function Without(p: bv32, m: bv32): bv32 { p & !m }

  function With(p: bv32, m: bv32): bv32 { p | m }

  function Cleared(p: bv32, i: nat): bv32
    requires i < 32
  {
    Without(p, Mask(i))
  }

  function Raised(p: bv32, i: nat): bv32
    requires i < 32
  {
    With(p, Mask(i))
  }

  // IsSet facts, with the shift counts as words
  predicate Apart(m: bv32, n: bv32) { m & n == 0 }

  lemma ApartWithout(p: bv32, m: bv32, n: bv32)
    requires Apart(m, n)
    ensures Common(Without(p, m), n) == Common(p, n)
  {
  }

  lemma ApartWith(p: bv32, m: bv32, n: bv32)
    requires Apart(m, n)
    ensures Common(With(p, m), n) == Common(p, n)
  {
  }

  lemma ApartWords(p: bv32, m: bv32, n: bv32)
    requires Apart(m, n)
    ensures Has(Without(p, m), n) <==> Has(p, n)
    ensures Has(With(p, m), n) <==> Has(p, n)
  {
    hide Common, Without, With, Apart;
    ApartWithout(p, m, n);
    ApartWith(p, m, n);
  }

  lemma ApartShifts(a: bv32, b: bv32)
    requires a < 32 && b < 32 && a != b
    ensures Apart((1 as bv32) << a, (1 as bv32) << b)
  {
  }

  lemma OwnWord(p: bv32, a: bv32)
    requires a < 32
    ensures var m := (1 as bv32) << a; Has(With(p, m), m) && !Has(Without(p, m), m)
  {
  }

  lemma SmallWord(i: nat)
    requires i < 32
    ensures (i as bv32) as int == i && i as bv32 < 32
  {
  }

  lemma MaskWord(i: nat)
    requires i < 32
    ensures Mask(i) == (1 as bv32) << (i as bv32)
  {
  }

  lemma MasksApart(i: nat, j: nat)
    requires i < 32 && j < 32 && i != j
    ensures Apart(Mask(i), Mask(j))
  {
    hide Mask, Apart;
    SmallWord(i);
    SmallWord(j);
    MaskWord(i);
    MaskWord(j);
    ApartShifts(i as bv32, j as bv32);
  }

  lemma OtherBit(p: bv32, i: nat, j: nat)
    requires i < 32 && j < 32 && i != j
    ensures IsSet(Cleared(p, i), j) <==> IsSet(p, j)
    ensures IsSet(Raised(p, i), j) <==> IsSet(p, j)
  {
    hide Mask, Has, With, Without, Apart;
    MasksApart(i, j);
    ApartWords(p, Mask(i), Mask(j));
  }

  lemma OwnBit(p: bv32, i: nat)
    requires i < 32
    ensures !IsSet(Cleared(p, i), i) && IsSet(Raised(p, i), i)
  {
    hide Mask, Has, With, Without;
    MaskWord(i);
    SmallWord(i);
    OwnWord(p, i as bv32);
  }

  lemma ClearBit(p: bv32, i: nat)
    requires i < NUMSIG
    ensures Signals(Cleared(p, i)) == Signals(p) - {i}
  {
    hide IsSet, Mask, Cleared;
    forall j: nat | j < NUMSIG ensures IsSet(Cleared(p, i), j) <==> IsSet(p, j) && j != i {
      if i != j { OtherBit(p, i, j); } else { OwnBit(p, i); }
    }
  }

  lemma RaiseBit(p: bv32, i: nat)
    requires i < NUMSIG
    ensures Signals(Raised(p, i)) == Signals(p) + {i}
  {
    hide IsSet, Mask, Raised;
    forall j: nat | j < NUMSIG ensures IsSet(Raised(p, i), j) <==> IsSet(p, j) || j == i {
      if i != j { OtherBit(p, i, j); } else { OwnBit(p, i); }
    }
  }

  lemma ZeroClear(i: nat)
    requires i < NUMSIG
    ensures !IsSet(0, i)
  {
  }

  lemma NoBits(p: bv32)
    ensures p == 0 <==> Signals(p) == {}
  {
    hide IsSet, Mask;
    if Signals(p) == {} {
      forall i: nat | i < NUMSIG ensures !IsSet(p, i) {
        assert i !in Signals(p);
      }
      AllClear(p);
    }
    forall i: nat | i < NUMSIG ensures !IsSet(0, i) {
      ZeroClear(i);
    }
  }

  lemma AllClear(p: bv32)
    requires forall i: nat :: i < NUMSIG ==> !IsSet(p, i)
    ensures p == 0
  {
    assert p & 0x000000ff == 0 by {
      assert !IsSet(p, 0) && !IsSet(p, 1) && !IsSet(p, 2) && !IsSet(p, 3) && !IsSet(p, 4) && !IsSet(p, 5) &&
        !IsSet(p, 6) && !IsSet(p, 7);
    }
    assert p & 0x0000ff00 == 0 by {
      assert !IsSet(p, 8) && !IsSet(p, 9) && !IsSet(p, 10) && !IsSet(p, 11) && !IsSet(p, 12) && !IsSet(p, 13) &&
        !IsSet(p, 14) && !IsSet(p, 15);
    }
    assert p & 0x00ff0000 == 0 by {
      assert !IsSet(p, 16) && !IsSet(p, 17) && !IsSet(p, 18) && !IsSet(p, 19) && !IsSet(p, 20) && !IsSet(p, 21) &&
        !IsSet(p, 22) && !IsSet(p, 23);
    }
    assert p & 0xff000000 == 0 by {
      assert !IsSet(p, 24) && !IsSet(p, 25) && !IsSet(p, 26) && !IsSet(p, 27) && !IsSet(p, 28) && !IsSet(p, 29) &&
        !IsSet(p, 30) && !IsSet(p, 31);
    }
  }

  /** The lowest bit from i on; NUMSIG if there is none. */
  function Lowest(p: bv32, i: nat): (r: nat)
    requires i <= NUMSIG
    ensures i <= r <= NUMSIG && (r < NUMSIG ==> IsSet(p, r))
    ensures forall j: nat :: i <= j < r ==> !IsSet(p, j)
    decreases NUMSIG - i
  {
    if i == NUMSIG || IsSet(p, i) then i else Lowest(p, i + 1)
  }

  lemma LowestIs(p: bv32)
    requires p != 0
    ensures Lowest(p, 0) in Signals(p) && forall j :: j in Signals(p) ==> Lowest(p, 0) <= j
  {
    hide IsSet;
    NoBits(p);
  }

  // ---- the protocol ----

  /** One process; active holds the trap frame each handler now running was entered from, and delivered
      the signals delivered so far. */
  datatype State = State(pending: bv32, handling: bool, handlers: seq<uint>, retAdd: uint,
    tf: TrapFrame, backup: TrapFrame, memory: map<uint, uint>, active: seq<TrapFrame>, delivered: seq<nat>)

  datatype Event =
    | Send(signum: int)                             // sigsend to this process
    | SetHandler(signum: int, handler: uint)        // signal
    | Trap(tf: TrapFrame, memory: map<uint, uint>)  // user code has run and entered the kernel
    | Deliver                                       // do_signal
    | SigReturn

  predicate Enabled(s: State, e: Event) {
    match e
    case Trap(tf, _) => tf.cs % 4 == DPL_USER
    case SigReturn => s.handling
    case _ => true
  }

  predicate Deliverable(s: State) {
    s.tf.cs % 4 == DPL_USER && s.pending != 0 && !s.handling
  }

  function Minus(x: uint, k: nat): uint
    requires k <= 8
  {
    if x < k then x - k + 0x1_0000_0000 else x - k
  }

  /** The frame with which a handler is entered. */
  function Entered(tf: TrapFrame, handler: uint): TrapFrame {
    tf.(esp := Minus(tf.esp, 8), eip := handler)
  }

  function Pushed(memory: map<uint, uint>, esp: uint, signum: nat, retAdd: uint): map<uint, uint>
    requires signum < NUMSIG
  {
    memory[Minus(esp, 4) := signum][Minus(esp, 8) := retAdd]
  }

  function Delivered(s: State): State
    requires |s.handlers| == NUMSIG
  {
    if !Deliverable(s) then s else
      var i := Lowest(s.pending, 0);
      if i == NUMSIG then s else
        var t := s.(pending := Cleared(s.pending, i), delivered := s.delivered + [i]);
        if s.handlers[i] == DEFAULT then t else
          t.(handling := true, backup := s.tf, tf := Entered(s.tf, s.handlers[i]),
             memory := Pushed(s.memory, s.tf.esp, i, s.retAdd), active := s.active + [s.tf])
  }

  /** sigreturn, and then syscall's store of its result. */
  function Returned(s: State): State {
    s.(handling := false, tf := s.backup.(eax := 0), active := if s.active == [] then []
        else s.active[..|s.active| - 1])
  }

  function Step(s: State, e: Event): State
    requires |s.handlers| == NUMSIG
  {
    match e
    case Send(signum) => if 0 <= signum < NUMSIG then s.(pending := Raised(s.pending, signum)) else s
    case SetHandler(signum, handler) => if 0 <= signum < NUMSIG then s.(handlers := s.handlers[signum := handler])
      else s
    case Trap(tf, memory) => s.(tf := tf, memory := memory)
    case Deliver => Delivered(s)
    case SigReturn => Returned(s)
  }

  /** At most one handler is active, and its frame is the one kept for sigreturn. */
  ghost predicate Inv(s: State) {
    && |s.handlers| == NUMSIG && |s.active| <= 1 && (s.handling <==> |s.active| == 1)
    && (s.handling ==> s.backup == s.active[0])
  }

  lemma StepInv(s: State, e: Event)
    requires Inv(s) && Enabled(s, e)
    ensures Inv(Step(s, e))
  {
    hide Cleared, Raised, IsSet, Lowest;
  }

  /** A run of enabled steps leads from s to t. */
  ghost predicate Reaches(s: State, es: seq<Event>, t: State)
    requires Inv(s)
    decreases |es|
  {
    if es == [] then t == s else
      Enabled(s, es[0]) && (StepInv(s, es[0]); Reaches(Step(s, es[0]), es[1..], t))
  }

  /** In every run at most one handler is active. */
  lemma {:induction false} OneHandler(s: State, es: seq<Event>, t: State)
    requires Inv(s) && Reaches(s, es, t)
    ensures Inv(t)
    decreases |es|
  {
    hide Step;
    if es != [] {
      StepInv(s, es[0]);
      OneHandler(Step(s, es[0]), es[1..], t);
    }
  }

  /** A delivery consumes the lowest pending signal and no other. */
  lemma DeliverLowest(s: State)
    requires |s.handlers| == NUMSIG && Deliverable(s)
    ensures var i, t := Lowest(s.pending, 0), Delivered(s);
      && i in Signals(s.pending) && (forall j :: j in Signals(s.pending) ==> i <= j)
      && Signals(t.pending) == Signals(s.pending) - {i} && t.delivered == s.delivered + [i]
      && (t.handling <==> s.handlers[i] != DEFAULT)
  {
    hide Cleared, Raised, IsSet, Lowest, Signals;
    LowestIs(s.pending);
    InRange(s.pending, Lowest(s.pending, 0));
    ClearBit(s.pending, Lowest(s.pending, 0));
  }

  /** Two memories agree but for the words at a and b. */
  ghost predicate SameBut(m: map<uint, uint>, m': map<uint, uint>, a: uint, b: uint) {
    forall x: uint :: x != a && x != b ==> (x in m' <==> x in m) && (x in m ==> m'[x] == m[x])
  }

  /** A delivery to a handler sends the process there: the program counter is the handler, the return address is on
      top of the stack and the signal number below it, no other register and no other word changes, and the
      frame is kept for sigreturn. */
  lemma DeliverEnters(s: State)
    requires |s.handlers| == NUMSIG && Deliverable(s)
    ensures var i, t := Lowest(s.pending, 0), Delivered(s);
      && i < NUMSIG && t.handlers == s.handlers && t.retAdd == s.retAdd
      && (s.handlers[i] == DEFAULT ==> t.tf == s.tf && t.memory == s.memory && t.backup == s.backup)
      && (s.handlers[i] != DEFAULT ==> 
          var top, below := (s.tf.esp + 0xffff_fff8) % 0x1_0000_0000, (s.tf.esp + 0xffff_fffc) % 0x1_0000_0000;
          && t.tf.eip == s.handlers[i] && t.tf.esp == top && t.tf.(eip := s.tf.eip, esp := s.tf.esp) == s.tf
          && top in t.memory && t.memory[top] == s.retAdd && below in t.memory && t.memory[below] == i
          && SameBut(s.memory, t.memory, top, below) && t.backup == s.tf)
  {
    hide Cleared, IsSet, Lowest, Signals;
    LowestIs(s.pending);
    InRange(s.pending, Lowest(s.pending, 0));
    MinusIs(s.tf.esp);
  }

  lemma MinusIs(x: uint)
    ensures Minus(x, 4) == (x + 0xffff_fffc) % 0x1_0000_0000
    ensures Minus(x, 8) == Minus(Minus(x, 4), 4) == (x + 0xffff_fff8) % 0x1_0000_0000
  {
  }

  lemma InRange(p: bv32, i: nat)
    requires i in Signals(p)
    ensures i < NUMSIG
  {
  }

  /** The signals sent by a list of events. */
  ghost function Sent(es: seq<Event>): set<nat>
    decreases |es|
  {
    if es == [] then {} else
      (if es[0].Send? && 0 <= es[0].signum < NUMSIG then {es[0].signum} else {}) + Sent(es[1..])
  }

  lemma HandlingStep(s: State, e: Event)
    requires Inv(s) && s.handling && !e.SigReturn?
    ensures var t := Step(s, e);
      && t.handling && t.backup == s.backup && t.active == s.active && t.delivered == s.delivered
      && Signals(t.pending) == Signals(s.pending) + Sent([e])
  {
    hide Cleared, Raised, IsSet, Lowest, Signals;
    assert [e][1..] == [];
    if e.Send? && 0 <= e.signum < NUMSIG { RaiseBit(s.pending, e.signum); }
  }

  /** While a handler runs, nothing is delivered and what is sent stays pending. */
  lemma {:induction false} WhileHandling(s: State, es: seq<Event>, t: State)
    requires Inv(s) && s.handling && Reaches(s, es, t) && forall e :: e in es ==> !e.SigReturn?
    ensures t.handling && t.backup == s.backup && t.active == s.active && t.delivered == s.delivered
    ensures Signals(t.pending) == Signals(s.pending) + Sent(es)
    decreases |es|
  {
    hide Step, Signals;
    if es != [] {
      StepInv(s, es[0]);
      HandlingStep(s, es[0]);
      WhileHandling(Step(s, es[0]), es[1..], t);
      assert [es[0]][1..] == [];
    }
  }

  /** Whatever the handler does in between, a delivery and its sigreturn give back the whole trap frame but
      eax, which becomes 0, and leave pending what was, less the signal delivered, and what was sent. */
  lemma RoundTrip(s: State, es: seq<Event>, t: State)
    requires Inv(s) && Deliverable(s) && Lowest(s.pending, 0) < NUMSIG && s.handlers[Lowest(s.pending, 0)] != DEFAULT
    requires (StepInv(s, Deliver); Reaches(Delivered(s), es, t)) && forall e :: e in es ==> !e.SigReturn?
    ensures Enabled(t, SigReturn)
    ensures var u := Returned(t);
      && u.tf == s.tf.(eax := 0) && !u.handling
      && Signals(u.pending) == (Signals(s.pending) - {Lowest(s.pending, 0)}) + Sent(es)
  {
    hide Cleared, Raised, IsSet, Lowest, Signals;
    StepInv(s, Deliver);
    DeliverLowest(s);
    WhileHandling(Delivered(s), es, t);
  }

  // ---- draining ----

  /** One delivery and, if it entered a handler, that handler's sigreturn. */
  function Served(s: State): State
    requires |s.handlers| == NUMSIG
  {
    var t := Delivered(s);
    if t.handling then Returned(t) else t
  }

  function ServedTimes(s: State, n: nat): State
    requires |s.handlers| == NUMSIG
    decreases n
  {
    if n == 0 then s else ServedTimes(Served(s), n - 1)
  }

  lemma ServeOne(s: State)
    requires Inv(s) && Deliverable(s)
    ensures var i, t := Lowest(s.pending, 0), Served(s);
      && Inv(t) && !t.handling && t.tf.cs == s.tf.cs && t.delivered == s.delivered + [i]
      && i in Signals(s.pending) && (forall j :: j in Signals(s.pending) ==> i <= j)
      && Signals(t.pending) == Signals(s.pending) - {i}
  {
    hide Cleared, Raised, IsSet, Lowest, Signals;
    StepInv(s, Deliver);
    DeliverLowest(s);
  }

  lemma AtMost32(p: bv32)
    ensures |Signals(p)| <= NUMSIG
  {
    hide IsSet, Indices;
    assert Signals(p) <= Indices(NUMSIG);
    SubsetCount(Signals(p), Indices(NUMSIG));
  }

  /** Each of the signals once, in ascending order. */
  ghost predicate Ordered(a: seq<nat>, signals: set<nat>) {
    (forall i :: i in a <==> i in signals) && forall i, j :: 0 <= i < j < |a| ==> a[i] < a[j]
  }

  lemma OrderedFirst(i: nat, a: seq<nat>, signals: set<nat>)
    requires i in signals && (forall j :: j in signals ==> i <= j) && Ordered(a, signals - {i})
    ensures Ordered([i] + a, signals)
  {
    forall j ensures j in [i] + a <==> j == i || j in a {
    }
    forall k | 0 <= k < |a| ensures i < a[k] {
      assert a[k] in a;
    }
  }

  /** Served one by one with nothing new sent, the pending signals are delivered once each, in ascending
      order, and are gone after as many deliveries as there were. */
  lemma {:induction false} Drains(s: State, n: nat) returns (order: seq<nat>)
    requires Inv(s) && !s.handling && s.tf.cs % 4 == DPL_USER && |Signals(s.pending)| <= n
    ensures var t := ServedTimes(s, n);
      t.pending == 0 && !t.handling && t.delivered == s.delivered + order && Ordered(order, Signals(s.pending))
    decreases n
  {
    hide Signals, Lowest, Served, Ordered;
    NoBits(s.pending);
    if s.pending == 0 {
      ServeNone(s, n);
      order := [];
      OrderedNone();
    } else {
      var i, t := Lowest(s.pending, 0), Served(s);
      ServeOne(s);
      assert |Signals(t.pending)| == |Signals(s.pending)| - 1;
      var rest := Drains(t, n - 1);
      order := [i] + rest;
      OrderedFirst(i, rest, Signals(s.pending));
      assert s.delivered + [i] + rest == s.delivered + order;
    }
  }

  lemma OrderedNone()
    ensures Ordered([], {})
  {
  }

  lemma {:induction false} ServeNone(s: State, n: nat)
    requires |s.handlers| == NUMSIG && s.pending == 0 && !s.handling
    ensures ServedTimes(s, n) == s
  {
    if n > 0 { ServeNone(s, n - 1); }
  }

  /** One step of a run with nothing sent: the lowest pending signal is delivered, or none is. */
  lemma QuietStep(s: State, e: Event)
    requires Inv(s) && Enabled(s, e) && !e.Send?
    ensures var t := Step(s, e);
      if t.delivered != s.delivered then
        var i := Lowest(s.pending, 0);
        && t.delivered == s.delivered + [i] && Signals(t.pending) == Signals(s.pending) - {i}
        && i in Signals(s.pending) && forall j :: j in Signals(s.pending) ==> i <= j
      else t.pending == s.pending
  {
    hide Cleared, Raised, IsSet, Lowest, Signals;
    if e.Deliver? && Deliverable(s) { DeliverLowest(s); }
  }

  lemma DrainedFirst(i: nat, rest: seq<nat>, before: set<nat>, after: set<nat>)
    requires i in before && (forall j :: j in before ==> i <= j) && after <= before - {i}
    requires Ordered(rest, before - {i} - after) && |rest| + |after| == |before - {i}|
    ensures Ordered([i] + rest, before - after) && |[i] + rest| + |after| == |before|
  {
    hide Ordered;
    assert before - after - {i} == before - {i} - after;
    OrderedFirst(i, rest, before - after);
  }

  /** Over every run in which nothing is sent, however long its handlers take and whatever they do, each
      signal delivered was pending, it is delivered once, in ascending order, and the others are still
      pending. */
  lemma {:induction false} DrainsAlways(s: State, es: seq<Event>, t: State) returns (order: seq<nat>)
    requires Inv(s) && Reaches(s, es, t) && forall e :: e in es ==> !e.Send?
    ensures t.delivered == s.delivered + order && Signals(t.pending) <= Signals(s.pending)
    ensures Ordered(order, Signals(s.pending) - Signals(t.pending))
    ensures |order| + |Signals(t.pending)| == |Signals(s.pending)|
    decreases |es|
  {
    hide Step, Signals, Ordered, Lowest, Enabled;
    if es == [] {
      order := [];
      assert Signals(s.pending) - Signals(t.pending) == {};
      OrderedNone();
    } else {
      var u := Step(s, es[0]);
      StepInv(s, es[0]);
      QuietStep(s, es[0]);
      var rest := DrainsAlways(u, es[1..], t);
      order := if u.delivered == s.delivered then rest else [Lowest(s.pending, 0)] + rest;
      if u.delivered != s.delivered {
        DrainedFirst(Lowest(s.pending, 0), rest, Signals(s.pending), Signals(t.pending));
        assert s.delivered + [Lowest(s.pending, 0)] + rest == s.delivered + order;
      }
    }
  }

  /** So a run with nothing sent makes at most 32 deliveries, and the pending word is empty exactly when it
      has made as many as there were signals pending. */
  lemma DrainsIn32(s: State, es: seq<Event>, t: State)
    requires Inv(s) && Reaches(s, es, t) && forall e :: e in es ==> !e.Send?
    ensures |t.delivered| <= |s.delivered| + NUMSIG
    ensures t.pending == 0 <==> |t.delivered| == |s.delivered| + |Signals(s.pending)|
  {
    hide Reaches, Signals;
    var order := DrainsAlways(s, es, t);
    AtMost32(s.pending);
    NoBits(t.pending);
  }

  // ---- the code ----

  class Process {
    var pending: bv32
    var handling: bool
    var handlers: seq<uint>
    var retAdd: uint
    var tf: TrapFrame
    var backup: TrapFrame
    var memory: map<uint, uint>
    ghost var active: seq<TrapFrame>
    ghost var delivered: seq<nat>

    ghost function Abs(): State
      reads this
    {
      State(pending, handling, handlers, retAdd, tf, backup, memory, active, delivered)
    }

    /** save_tf, field by field. */
    method SaveTf()
      modifies this`backup
      ensures backup == tf
    {
      backup := backup.(edi := tf.edi);
      backup := backup.(esi := tf.esi);
      backup := backup.(ebp := tf.ebp);
      backup := backup.(oesp := tf.oesp);
      backup := backup.(ebx := tf.ebx);
      backup := backup.(edx := tf.edx);
      backup := backup.(ecx := tf.ecx);
      backup := backup.(eax := tf.eax);
      backup := backup.(gs := tf.gs);
      backup := backup.(padding1 := tf.padding1);
      backup := backup.(fs := tf.fs);
      backup := backup.(padding2 := tf.padding2);
      backup := backup.(es := tf.es);
      backup := backup.(padding3 := tf.padding3);
      backup := backup.(ds := tf.ds);
      backup := backup.(padding4 := tf.padding4);
      backup := backup.(trapno := tf.trapno);
      backup := backup.(err := tf.err);
      backup := backup.(eip := tf.eip);
      backup := backup.(cs := tf.cs);
      backup := backup.(padding5 := tf.padding5);
      backup := backup.(eflags := tf.eflags);
      backup := backup.(esp := tf.esp);
      backup := backup.(ss := tf.ss);
      backup := backup.(padding6 := tf.padding6);
    }

    /** restore_tf, field by field. */
    method RestoreTf()
      modifies this`tf
      ensures tf == backup
    {
      tf := tf.(edi := backup.edi);
      tf := tf.(esi := backup.esi);
      tf := tf.(ebp := backup.ebp);
      tf := tf.(oesp := backup.oesp);
      tf := tf.(ebx := backup.ebx);
      tf := tf.(edx := backup.edx);
      tf := tf.(ecx := backup.ecx);
      tf := tf.(eax := backup.eax);
      tf := tf.(gs := backup.gs);
      tf := tf.(padding1 := backup.padding1);
      tf := tf.(fs := backup.fs);
      tf := tf.(padding2 := backup.padding2);
      tf := tf.(es := backup.es);
      tf := tf.(padding3 := backup.padding3);
      tf := tf.(ds := backup.ds);
      tf := tf.(padding4 := backup.padding4);
      tf := tf.(trapno := backup.trapno);
      tf := tf.(err := backup.err);
      tf := tf.(eip := backup.eip);
      tf := tf.(cs := backup.cs);
      tf := tf.(padding5 := backup.padding5);
      tf := tf.(eflags := backup.eflags);
      tf := tf.(esp := backup.esp);
      tf := tf.(ss := backup.ss);
      tf := tf.(padding6 := backup.padding6);
    }

    /** do_signal */
    method DoSignal()
      requires |handlers| == NUMSIG
      modifies this
      ensures Abs() == Step(old(Abs()), Deliver)
      ensures !old(tf.cs % 4 == DPL_USER && pending != 0 && !handling) ==> Abs() == old(Abs())
      ensures old(tf.cs % 4 == DPL_USER && pending != 0 && !handling) ==>
        var i := Lowest(old(pending), 0);
        && i in Signals(old(pending)) && (forall j :: j in Signals(old(pending)) ==> i <= j) && i < NUMSIG
        && Signals(pending) == Signals(old(pending)) - {i} && (handling <==> handlers[i] != DEFAULT)
        && handlers == old(handlers) && retAdd == old(retAdd)
        && if handlers[i] == DEFAULT then tf == old(tf) && memory == old(memory) && backup == old(backup)
           else
             var top := (old(tf.esp) + 0xffff_fff8) % 0x1_0000_0000;
             var below := (old(tf.esp) + 0xffff_fffc) % 0x1_0000_0000;
             && backup == old(tf) && tf == old(tf).(eip := handlers[i], esp := top)
             && top in memory && memory[top] == retAdd && below in memory && memory[below] == i
             && SameBut(old(memory), memory, top, below)
    {
      hide Common, Without, Mask, Entered, Pushed, SameBut, Signals;
      if Deliverable(Abs()) {
        DeliverLowest(Abs());
        DeliverEnters(Abs());
      }
      if !(tf.cs % 4 == DPL_USER && pending != 0 && !handling) {
        return;
      }
      handling := true;
      LowestIs(pending);
      var signum := 0;
      while !Has(pending, Mask(signum))
        invariant 0 <= signum < NUMSIG && Lowest(pending, 0) == Lowest(pending, signum) < NUMSIG
        invariant Abs() == old(Abs()).(handling := true)
        decreases NUMSIG - signum
      {
        signum := signum + 1;
      }
      pending := Without(pending, Mask(signum));
      delivered := delivered + [signum];
      if handlers[signum] == DEFAULT {
        handling := false;
        return;
      }
      Enter(signum);
    }

    /** The end of do_signal: the frame is saved, and the user stack and program counter set for the handler. */
    method Enter(signum: nat)
      requires signum < NUMSIG == |handlers|
      modifies this`tf, this`backup, this`memory, this`active
      ensures backup == old(tf) && tf == Entered(old(tf), handlers[signum]) && active == old(active) + [old(tf)]
      ensures memory == Pushed(old(memory), old(tf.esp), signum, retAdd)
      ensures var top := (old(tf.esp) + 0xffff_fff8) % 0x1_0000_0000;
        var below := (old(tf.esp) + 0xffff_fffc) % 0x1_0000_0000;
        && tf == old(tf).(eip := handlers[signum], esp := top) && memory == old(memory)[below := signum][top := retAdd]
    {
      MinusIs(tf.esp);
      SaveTf();
      active := active + [tf];
      tf := tf.(esp := Minus(tf.esp, 4));
      memory := memory[tf.esp := signum];
      tf := tf.(esp := Minus(tf.esp, 4));
      memory := memory[tf.esp := retAdd];
      tf := tf.(eip := handlers[signum]);
    }

    /** sigsend, once the process is found. */
    method SigSend(signum: int) returns (r: int)
      requires |handlers| == NUMSIG
      modifies this`pending
      ensures Abs() == Step(old(Abs()), Send(signum)) && r == if 0 <= signum < NUMSIG then 0 else -1
      ensures Signals(pending) == Signals(old(pending)) + if 0 <= signum < NUMSIG then {signum as nat} else {}
    {
      hide Signals, IsSet;
      if NUMSIG - 1 < signum || signum < 0 {
        return -1;
      }
      RaiseBit(pending, signum);
      pending := With(pending, Mask(signum));
      r := 0;
    }

    /** signal; 0xffffffff is its error value too. */
    method Signal(signum: int, handler: uint) returns (prev: uint)
      requires |handlers| == NUMSIG
      modifies this`handlers
      ensures Abs() == Step(old(Abs()), SetHandler(signum, handler))
      ensures prev == if 0 <= signum < NUMSIG then old(handlers[signum]) else DEFAULT
      ensures handlers == if 0 <= signum < NUMSIG then old(handlers)[signum := handler] else old(handlers)
    {
      if NUMSIG - 1 < signum || signum < 0 {
        return DEFAULT;
      }
      prev := handlers[signum];
      handlers := handlers[signum := handler];
    }

    /** The sigreturn system call. */
    method SigReturn()
      requires |handlers| == NUMSIG
      modifies this
      ensures Abs() == Step(old(Abs()), Event.SigReturn)
      ensures !handling && tf == old(backup).(eax := 0) && pending == old(pending) && handlers == old(handlers)
      ensures backup == old(backup) && memory == old(memory) && delivered == old(delivered)
    {
      handling := false;
      RestoreTf();
      tf := tf.(eax := 0);
      active := if active == [] then [] else active[..|active| - 1];
    }
  }
}
