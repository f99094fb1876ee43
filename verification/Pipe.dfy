/** pipe.c: what every interleaving of reads, writes, closes and kills does to a pipe, and the ring
    buffer with wrapping 32-bit counters that implements it. A stretch of pipewrite or piperead between
    two sleeps, all under the pipe's lock, is one step. */
module Pipe {
  import opened Bytes

  const PIPESIZE := 512

  type Pid = nat

  /** The pipe as its users see it, with everything ever stored and everything ever read. */
  datatype State = State(queue: seq<byte>, readopen: bool, writeopen: bool,
    readers: set<Pid>, writers: set<Pid>,   // asleep on &nread and on &nwrite
    input: seq<byte>, output: seq<byte>)

  datatype Outcome = Slept | Failed | Finished

  datatype Event =
    | Write(p: Pid, bytes: seq<byte>, killed: bool)   // from the start of pipewrite, or from where it slept
    | Read(p: Pid, n: nat, killed: bool)
    | CloseRead
    | CloseWrite
    | Kill(p: Pid)                                    // kill wakes a sleeper

  /** How many of the bytes pipewrite stores before it stops. */
  function Stored(s: State, bytes: seq<byte>): nat
    requires |s.queue| <= PIPESIZE
  {
    Min(|bytes|, PIPESIZE - |s.queue|)
  }

  function WriteOutcome(s: State, bytes: seq<byte>, killed: bool): Outcome
    requires |s.queue| <= PIPESIZE
  {
    if Stored(s, bytes) == |bytes| then Finished else if !s.readopen || killed then Failed else Slept
  }

  function Written(s: State, p: Pid, bytes: seq<byte>, killed: bool): State
    requires |s.queue| <= PIPESIZE
  {
    var added := bytes[..Stored(s, bytes)];
    var out := WriteOutcome(s, bytes, killed);
    Pushed(s, added).(
       readers := if out == Failed then s.readers else {},
       writers := if out == Slept then s.writers + {p} else s.writers)
  }

  function ReadOutcome(s: State, killed: bool): Outcome {
    if s.queue != [] || !s.writeopen then Finished else if killed then Failed else Slept
  }

  function Taken(s: State, n: nat): seq<byte> { s.queue[..Min(n, |s.queue|)] }

  function ReadFrom(s: State, p: Pid, n: nat, killed: bool): State {
    match ReadOutcome(s, killed)
    case Slept => s.(readers := s.readers + {p})
    case Failed => s
    case Finished => Popped(s, Min(n, |s.queue|)).(writers := {})
  }

  /** A process uses an end of the pipe only while it holds it open, and does nothing while asleep. */
  predicate Enabled(s: State, e: Event) {
    match e
    case Write(p, _, _) => s.writeopen && p !in s.readers && p !in s.writers
    case Read(p, _, _) => s.readopen && p !in s.readers && p !in s.writers
    case CloseRead => s.readopen && s.readers == {}
    case CloseWrite => s.writeopen && s.writers == {}
    case Kill(_) => true
  }

  function Step(s: State, e: Event): State
    requires |s.queue| <= PIPESIZE
  {
    match e
    case Write(p, bytes, killed) => Written(s, p, bytes, killed)
    case Read(p, n, killed) => ReadFrom(s, p, n, killed)
    case CloseRead => s.(readopen := false, writers := {})
    case CloseWrite => s.(writeopen := false, readers := {})
    case Kill(p) => s.(readers := s.readers - {p}, writers := s.writers - {p})
  }

  ghost predicate Fifo(s: State) {
    |s.queue| <= PIPESIZE && s.input == s.output + s.queue
  }

  /** Who sleeps has a reason to, so readers and writers are never asleep together. */
  ghost predicate Awake(s: State) {
    && (s.readers != {} ==> s.queue == [] && s.readopen && s.writeopen)
    && (s.writers != {} ==> |s.queue| == PIPESIZE && s.readopen && s.writeopen)
  }

  /** A killed writer that fills the pipe leaves sleeping readers asleep. */
  predicate ForgetsReaders(s: State, e: Event) {
    e.Write? && e.killed && s.readers != {} && |e.bytes| > PIPESIZE
  }

  /** bytes added at the end, and k bytes taken from the front. */
  function Pushed(s: State, bytes: seq<byte>): State {
    s.(queue := s.queue + bytes, input := s.input + bytes)
  }

  function Popped(s: State, k: nat): (t: State)
    requires k <= |s.queue|
    ensures |t.queue| == |s.queue| - k && t.writeopen == s.writeopen
  {
    s.(queue := s.queue[k..], output := s.output + s.queue[..k])
  }

  lemma PushedFifo(s: State, bytes: seq<byte>)
    requires Fifo(s) && |s.queue| + |bytes| <= PIPESIZE
    ensures Fifo(Pushed(s, bytes)) && s.input <= Pushed(s, bytes).input && Pushed(s, bytes).output == s.output
  {
    assert s.output + s.queue + bytes == s.output + (s.queue + bytes);
  }

  lemma PoppedFifo(s: State, k: nat)
    requires Fifo(s) && k <= |s.queue|
    ensures Fifo(Popped(s, k)) && s.output <= Popped(s, k).output && Popped(s, k).input == s.input
  {
    assert s.queue == s.queue[..k] + s.queue[k..];
    assert s.output + s.queue[..k] + s.queue[k..] == s.output + (s.queue[..k] + s.queue[k..]);
  }

  lemma PushedNext(s: State, bytes: seq<byte>, b: byte)
    ensures Pushed(Pushed(s, bytes), [b]) == Pushed(s, bytes + [b])
  {
    assert s.queue + bytes + [b] == s.queue + (bytes + [b]);
    assert s.input + bytes + [b] == s.input + (bytes + [b]);
  }

  lemma PushedNone(s: State)
    ensures Pushed(s, []) == s
  {
  }

  lemma PushedLength(s: State, bytes: seq<byte>)
    ensures |Pushed(s, bytes).queue| == |s.queue| + |bytes|
  {
  }

  /** Where pipewrite stops: at the end of the bytes, or when the pipe is full. */
  lemma WriteEnds(s: State, p: Pid, addr: seq<byte>, start: nat, i: nat, killed: bool)
    requires start <= i <= |addr| && |s.queue| + i - start <= PIPESIZE
    requires i == |addr| || |s.queue| + i - start == PIPESIZE
    ensures i - start == Stored(s, addr[start..]) == Min(|addr| - start, PIPESIZE - |s.queue|)
    ensures var t, out := Pushed(s, addr[start..i]), WriteOutcome(s, addr[start..], killed);
      && t.queue == s.queue + addr[start..i] && t.input == s.input + addr[start..i]
      && t == s.(queue := t.queue, input := t.input)
      && out == (if i == |addr| then Finished else if !s.readopen || killed then Failed else Slept)
      && Written(s, p, addr[start..], killed) ==
           t.(readers := if out == Failed then s.readers else {},
              writers := if out == Slept then s.writers + {p} else s.writers)
  {
    assert addr[start..][..i - start] == addr[start..i];
  }

  lemma PoppedNone(s: State)
    ensures Popped(s, 0) == s
  {
  }

  lemma PoppedNext(s: State, k: nat)
    requires k < |s.queue|
    ensures Popped(Popped(s, k), 1) == Popped(s, k + 1)
    ensures Popped(s, k).queue[0] == s.queue[k] && s.queue[..k] + [s.queue[k]] == s.queue[..k + 1]
  {
    var t := s.queue[k..];
    assert t[1..] == s.queue[k + 1..] && t[..1] == [s.queue[k]];
    assert s.output + s.queue[..k] + t[..1] == s.output + s.queue[..k + 1];
  }

  lemma ReadParts(s: State, k: nat)
    requires k <= |s.queue|
    ensures var t := Popped(s, k);
      s.queue[..k] + t.queue == s.queue && t == s.(queue := t.queue, output := s.output + s.queue[..k])
  {
  }

  lemma StepFifo(s: State, e: Event)
    requires Fifo(s)
    ensures Fifo(Step(s, e)) && s.output <= Step(s, e).output && s.input <= Step(s, e).input
  {
    hide Pushed, Popped;
    match e
    case Write(p, bytes, killed) => PushedFifo(s, bytes[..Stored(s, bytes)]);
    case Read(p, n, killed) => PoppedFifo(s, Min(n, |s.queue|));
    case _ =>
  }

  /** One step keeps every sleeper justified exactly when it is not a killed writer's overfull write. */
  lemma AwakeExactly(s: State, e: Event)
    requires Fifo(s) && Awake(s) && Enabled(s, e)
    ensures Awake(Step(s, e)) <==> !ForgetsReaders(s, e)
  {
  }

  const OPENED := State([], true, true, {}, {}, [], [])

  /** A run of enabled steps leads from s to t. */
  ghost predicate Reaches(s: State, es: seq<Event>, t: State)
    requires Fifo(s)
    decreases |es|
  {
    if es == [] then t == s else
      Enabled(s, es[0]) && (StepFifo(s, es[0]); Reaches(Step(s, es[0]), es[1..], t))
  }

  /** Over every run the bytes read are a prefix of the bytes stored, at most PIPESIZE behind. */
  lemma {:induction false} FifoAlways(s: State, es: seq<Event>, t: State)
    requires Fifo(s) && Reaches(s, es, t)
    ensures Fifo(t) && t.output <= t.input && s.output <= t.output && s.input <= t.input
    decreases |es|
  {
    if es != [] {
      StepFifo(s, es[0]);
      FifoAlways(Step(s, es[0]), es[1..], t);
    }
  }

  function ReadOf(s: State, e: Event): seq<byte> {
    if e.Read? && ReadOutcome(s, e.killed) == Finished then Taken(s, e.n) else []
  }

  function WrittenOf(s: State, e: Event): seq<byte>
    requires |s.queue| <= PIPESIZE
  {
    if e.Write? then e.bytes[..Stored(s, e.bytes)] else []
  }

  lemma StepBytes(s: State, e: Event)
    requires Fifo(s)
    ensures Step(s, e).output == s.output + ReadOf(s, e) && Step(s, e).input == s.input + WrittenOf(s, e)
  {
  }

  /** What the reads of a run returned, one after the other. */
  ghost function ReadBytes(s: State, es: seq<Event>): seq<byte>
    requires Fifo(s)
    decreases |es|
  {
    if es == [] then [] else
      ReadOf(s, es[0]) + (StepFifo(s, es[0]); ReadBytes(Step(s, es[0]), es[1..]))
  }

  /** What the writes of a run stored: of each write the first bytes, as many as there was room for. */
  ghost function WrittenBytes(s: State, es: seq<Event>): seq<byte>
    requires Fifo(s)
    decreases |es|
  {
    if es == [] then [] else
      WrittenOf(s, es[0]) + (StepFifo(s, es[0]); WrittenBytes(Step(s, es[0]), es[1..]))
  }

  lemma {:induction false} RunBytes(s: State, es: seq<Event>, t: State)
    requires Fifo(s) && Reaches(s, es, t)
    ensures t.output == s.output + ReadBytes(s, es) && t.input == s.input + WrittenBytes(s, es)
    decreases |es|
  {
    hide Step, ReadOf, WrittenOf, Enabled;
    if es != [] {
      StepFifo(s, es[0]);
      StepBytes(s, es[0]);
      RunBytes(Step(s, es[0]), es[1..], t);
    }
  }

  /** Over every run from a new pipe, what the reads returned, followed by what is still in the pipe, is what the
      writes stored: no byte is lost, made up, repeated or moved. */
  lemma InOrder(es: seq<Event>, t: State)
    requires Reaches(OPENED, es, t)
    ensures ReadBytes(OPENED, es) + t.queue == WrittenBytes(OPENED, es) && |t.queue| <= PIPESIZE
  {
    hide Reaches;
    RunBytes(OPENED, es, t);
    FifoAlways(OPENED, es, t);
    assert [] + ReadBytes(OPENED, es) == ReadBytes(OPENED, es);
    assert [] + WrittenBytes(OPENED, es) == WrittenBytes(OPENED, es);
  }

  /** Over every run without killed writers no one sleeps in vain, and never readers and writers both. */
  lemma {:induction false} AwakeAlways(s: State, es: seq<Event>, t: State)
    requires Fifo(s) && Awake(s) && Reaches(s, es, t)
    requires forall e :: e in es && e.Write? ==> !e.killed
    ensures Awake(t) && (t.readers == {} || t.writers == {})
    decreases |es|
  {
    if es != [] {
      StepFifo(s, es[0]);
      AwakeExactly(s, es[0]);
      AwakeAlways(Step(s, es[0]), es[1..], t);
    }
  }

  /** With one killed writer a reader can be left asleep by a full pipe. */
  lemma LostWakeup(bytes: seq<byte>)
    requires |bytes| > PIPESIZE
    ensures exists t ::
      Reaches(OPENED, [Read(1, 1, false), Write(2, bytes, true)], t) && t.readers == {1} && |t.queue| == PIPESIZE
  {
    var es := [Read(1, 1, false), Write(2, bytes, true)];
    var s1 := Step(OPENED, es[0]);
    var s2 := Step(s1, es[1]);
    StepFifo(OPENED, es[0]);
    StepFifo(s1, es[1]);
    assert Enabled(OPENED, es[0]) && Enabled(s1, es[1]);
    assert es[1..] == [es[1]] && es[1..][1..] == [];
    assert Reaches(s2, [], s2);
    assert Reaches(s1, es[1..], s2);
    assert Reaches(OPENED, es, s2);
  }

  // ---- the ring buffer ----

  /** 32-bit unsigned arithmetic on one sum or difference. */
  function Wrap(x: int): nat
    requires -UINT_MOD <= x < 2 * UINT_MOD
  {
    if x < 0 then x + UINT_MOD else if x >= UINT_MOD then x - UINT_MOD else x
  }

  function Slot(x: nat): (r: nat)
    ensures r < PIPESIZE
  {
    x % PIPESIZE
  }

  /** The len bytes from nread on, around the ring. */
  ghost function Ring(data: seq<byte>, nread: nat, len: nat): (r: seq<byte>)
    requires |data| == PIPESIZE
    ensures |r| == len
  {
    seq(len, k requires 0 <= k < len => data[Slot(nread + k)])
  }

  lemma SlotsDiffer(nread: nat, k: nat, len: nat)
    requires k < len < PIPESIZE
    ensures Slot(nread + k) != Slot(nread + len)
  {
  }

  lemma RingPush(data: seq<byte>, nread: nat, len: nat, b: byte)
    requires |data| == PIPESIZE && len < PIPESIZE
    ensures Ring(data[Slot(nread + len) := b], nread, len + 1) == Ring(data, nread, len) + [b]
  {
    hide Slot;
    var r, q := Ring(data[Slot(nread + len) := b], nread, len + 1), Ring(data, nread, len);
    forall k: nat | k < len ensures r[k] == q[k] {
      SlotsDiffer(nread, k, len);
    }
  }

  /** PIPESIZE divides the counters' range, so wrapping keeps the slot. */
  lemma WrapSlot(x: nat, k: nat)
    requires x < 2 * UINT_MOD
    ensures Slot(Wrap(x) + k) == Slot(x + k)
  {
  }

  lemma RingPop(data: seq<byte>, nread: nat, len: nat)
    requires |data| == PIPESIZE && len > 0 && nread < UINT_MOD
    ensures Ring(data, Wrap(nread + 1), len - 1) == Ring(data, nread, len)[1..]
    ensures Ring(data, nread, len)[0] == data[Slot(nread)]
  {
    hide Slot, Wrap;
    var r, q := Ring(data, Wrap(nread + 1), len - 1), Ring(data, nread, len);
    forall k: nat | k < len - 1 ensures r[k] == q[1..][k] {
      WrapSlot(nread + 1, k);
      assert Slot(Wrap(nread + 1) + k) == Slot(nread + (k + 1));
    }
  }

  /** How a read ends, outcome by outcome. */
  lemma ReadEnds(s: State, p: Pid, n: nat, killed: bool)
    ensures var out := if s.queue != [] || !s.writeopen then Finished else if killed then Failed else Slept;
      var k := Min(n, |s.queue|);
      && ReadOutcome(s, killed) == out && Taken(s, n) == s.queue[..k]
      && ReadFrom(s, p, n, killed) ==
        if out == Finished then Popped(s, k).(writers := {})
        else if out == Slept then s.(readers := s.readers + {p}) else s
  {
  }

  class Buffer {
    const data: array<byte>
    var nread: nat
    var nwrite: nat
    var readopen: bool
    var writeopen: bool
    var readers: set<Pid>
    var writers: set<Pid>
    ghost var input: seq<byte>
    ghost var output: seq<byte>

    /** nwrite - nread in 32-bit arithmetic. */
    function Length(): nat
      requires nread < UINT_MOD && nwrite < UINT_MOD
      reads this
    {
      Wrap(nwrite - nread)
    }

    ghost predicate Valid()
      reads this, data
    {
      data.Length == PIPESIZE && nread < UINT_MOD && nwrite < UINT_MOD && Length() <= PIPESIZE
    }

    ghost function Abs(): State
      requires data.Length == PIPESIZE && nread < UINT_MOD && nwrite < UINT_MOD
      reads this, data
    {
      State(Ring(data[..], nread, Length()), readopen, writeopen, readers, writers, input, output)
    }

    /** pipealloc's new pipe. */
    constructor ()
      ensures Valid() && fresh(data) && Abs() == OPENED
    {
      data := new byte[PIPESIZE](_ => 0);
      nread, nwrite, readopen, writeopen := 0, 0, true, true;
      readers, writers, input, output := {}, {}, [], [];
    }

    /** pipewrite of addr[i..], from its start or from where it slept. */
    method Write(p: Pid, addr: seq<byte>, start: nat, killed: bool) returns (i: nat, out: Outcome)
      requires Valid() && start <= |addr|
      modifies this, data
      ensures Valid()
      ensures old(|Abs().queue|) <= PIPESIZE && Abs() == Written(old(Abs()), p, addr[start..], killed)
      ensures out == WriteOutcome(old(Abs()), addr[start..], killed)
      ensures i == start + Stored(old(Abs()), addr[start..])
      ensures var q := old(Abs().queue);
        && start <= i <= |addr| && i - start == Min(|addr| - start, PIPESIZE - |q|)
        && Abs().queue == q + addr[start..i] && input == old(input) + addr[start..i] && output == old(output)
        && (out == Finished <==> i == |addr|)
        && (out == Failed <==> i < |addr| && (!readopen || killed))
        && (out == Slept <==> i < |addr| && readopen && !killed)
      ensures readers == (if out == Failed then old(readers) else {}) && readopen == old(readopen)
      ensures writers == (if out == Slept then old(writers) + {p} else old(writers)) && writeopen == old(writeopen)
    {
      hide Ring, Pushed, Written, WriteOutcome, Stored;
      i := start;
      ghost var s0 := Abs();
      PushedNone(s0);
      assert addr[start..start] == [];
      while i < |addr|
        invariant start <= i <= |addr| && Valid() && |s0.queue| + i - start <= PIPESIZE
        invariant Abs() == Pushed(s0, addr[start..i])
      {
        PushedLength(s0, addr[start..i]);
        if nwrite == Wrap(nread + PIPESIZE) {
          WriteEnds(s0, p, addr, start, i, killed);
          if !readopen || killed {
            return i, Failed;
          }
          readers := {};
          writers := writers + {p};
          return i, Slept;
        }
        PushedNext(s0, addr[start..i], addr[i]);
        Push(addr[i]);
        assert addr[start..i + 1] == addr[start..i] + [addr[i]];
        i := i + 1;
      }
      WriteEnds(s0, p, addr, start, i, killed);
      readers := {};
      out := Finished;
    }

    /** One byte into the ring at nwrite. */
    method Push(b: byte)
      requires Valid() && Length() < PIPESIZE
      modifies this`nwrite, this`input, data
      ensures Valid() && Abs() == Pushed(old(Abs()), [b])
    {
      hide Ring;
      WrapSlot(nread + Length(), 0);
      RingPush(data[..], nread, Length(), b);
      ghost var d := data[..];
      data[Slot(nwrite)] := b;
      assert data[..] == d[Slot(nwrite) := b];
      nwrite := Wrap(nwrite + 1);
      input := input + [b];
    }

    /** One byte out of the ring at nread. */
    method Pop() returns (b: byte)
      requires Valid() && nread != nwrite
      modifies this`nread, this`output
      ensures Valid() && old(Abs().queue) != [] && b == old(Abs().queue)[0]
      ensures Abs() == Popped(old(Abs()), 1)
    {
      RingPop(data[..], nread, Length());
      b := data[Slot(nread)];
      nread := Wrap(nread + 1);
      output := output + [b];
    }

    /** piperead of n bytes, from its start or from where it slept. */
    method Read(p: Pid, n: nat, killed: bool) returns (bytes: seq<byte>, out: Outcome)
      requires Valid()
      modifies this
      ensures Valid() && Abs() == ReadFrom(old(Abs()), p, n, killed) && out == ReadOutcome(old(Abs()), killed)
      ensures bytes == if out == Finished then Taken(old(Abs()), n) else []
      ensures var q := old(Abs().queue);
        && out == (if q != [] || !writeopen then Finished else if killed then Failed else Slept)
        && |bytes| == (if out == Finished then Min(n, |q|) else 0) && bytes + Abs().queue == q
        && output == old(output) + bytes && input == old(input)
      ensures readers == (if out == Slept then old(readers) + {p} else old(readers)) && readopen == old(readopen)
      ensures writers == (if out == Finished then {} else old(writers)) && writeopen == old(writeopen)
    {
      hide Ring, Popped, ReadFrom, ReadOutcome, Taken;
      ghost var s0 := Abs();
      ReadEnds(s0, p, n, killed);
      bytes := [];
      if nread == nwrite && writeopen {
        if killed {
          return bytes, Failed;
        }
        readers := readers + {p};
        return bytes, Slept;
      }
      PoppedNone(s0);
      var i := 0;
      while i < n && nread != nwrite
        invariant Valid() && i <= n && i <= |s0.queue| && Abs() == Popped(s0, i) && bytes == s0.queue[..i]
      {
        PoppedNext(s0, i);
        var b := Pop();
        bytes := bytes + [b];
        i := i + 1;
      }
      assert i == Min(n, |s0.queue|);
      ReadParts(s0, i);
      writers := {};
      out := Finished;
    }

    /** pipeclose of one end. */
    method Close(writable: bool)
      requires Valid()
      modifies this
      ensures Valid() && Abs() == Step(old(Abs()), if writable then CloseWrite else CloseRead)
      ensures Abs() == if writable then old(Abs()).(writeopen := false, readers := {})
                       else old(Abs()).(readopen := false, writers := {})
    {
      if writable {
        writeopen := false;
        readers := {};
      } else {
        readopen := false;
        writers := {};
      }
    }
  }
}
