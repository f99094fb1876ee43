/** umalloc.c: the first-fit, coalescing allocator. Addresses count header-sized units (8 bytes);
    a block's header is its first unit and its size counts the header. */
module Malloc {
  import Bytes

  const UNIT := 8                       // sizeof(Header)
  const UINT_MOD := Bytes.UINT_MOD
  const MAXREQUEST := 0x7FFF_FFF0       // see RequestExact

  datatype Header = Header(ptr: nat, size: nat)
  type Mem = map<nat, Header>

  // ---- request arithmetic ----

  /** nunits, in 32-bit unsigned arithmetic */
  function NUnits(nbytes: nat): nat
    requires nbytes < UINT_MOD
  {
    (nbytes + UNIT - 1) % UINT_MOD / UNIT + 1
  }

  /** morecore's rounding, and the argument sbrk sees: an int */
  function CoreUnits(nu: nat): nat { if nu < 4096 then 4096 else nu }

  function SbrkArg(nu: nat): int {
    var u := nu * UNIT % UINT_MOD;
    if u < UINT_MOD / 2 then u else u - UINT_MOD
  }

  /** A request is computed right, both as a block size and as an sbrk argument, exactly up to
      MAXREQUEST: above it sbrk is asked for a negative amount or the unit count wraps. */
  lemma RequestExact(nbytes: nat)
    requires nbytes < UINT_MOD
    ensures NUnits(nbytes) >= 1
    ensures nbytes <= MAXREQUEST <==>
      (NUnits(nbytes) - 1) * UNIT >= nbytes && SbrkArg(CoreUnits(NUnits(nbytes))) == CoreUnits(NUnits(nbytes)) * UNIT
  {
  }

  /** No unit is wasted: a header of 8 bytes, and then as many as the request needs. */
  lemma RequestTight(nbytes: nat)
    requires nbytes <= MAXREQUEST
    ensures (NUnits(nbytes) - 2) * 8 < nbytes <= (NUnits(nbytes) - 1) * 8
  {
  }

  // ---- the free list ----

  datatype Node = Node(addr: nat, size: nat) {
    function End(): nat { addr + size }
    predicate Has(u: nat) { addr <= u < addr + size }
  }

  /** The circular list cut at its one wrap point: base, then the free blocks in address order,
      no two of them touching. */
  ghost predicate Coalesced(ns: seq<Node>) {
    && |ns| > 0 && ns[0].size == 0
    && (forall i :: 1 <= i < |ns| ==> ns[i].size >= 1)
    && (forall i :: 0 <= i < |ns| - 1 ==> Gap(ns, i))
  }

  predicate Gap(ns: seq<Node>, i: nat)
    requires i < |ns| - 1
  {
    ns[i].End() < ns[i + 1].addr
  }

  function Next(ns: seq<Node>, i: nat): nat
    requires i < |ns|
  {
    if i + 1 < |ns| then ns[i + 1].addr else ns[0].addr
  }

  /** The headers in memory spell out the list. */
  ghost predicate Linked(mem: Mem, ns: seq<Node>) {
    forall i {:trigger Next(ns, i)} :: 0 <= i < |ns| ==>
      ns[i].addr in mem && mem[ns[i].addr] == Header(Next(ns, i), ns[i].size)
  }

  lemma HeaderAt(mem: Mem, ns: seq<Node>, i: nat)
    requires Linked(mem, ns) && i < |ns|
    ensures ns[i].addr in mem && mem[ns[i].addr] == Header(Next(ns, i), ns[i].size)
  {
    var _ := Next(ns, i);
  }

  lemma {:induction false} Before(ns: seq<Node>, i: nat, j: nat)
    requires Coalesced(ns) && i < j < |ns|
    ensures ns[i].End() < ns[j].addr
    decreases j
  {
    assert Gap(ns, j - 1);
    if i + 1 < j { Before(ns, i, j - 1); }
  }

  lemma OtherAddr(ns: seq<Node>, i: nat)
    requires Coalesced(ns) && i < |ns|
    ensures forall j :: 0 <= j < |ns| && j != i ==> ns[j].addr != ns[i].addr
  {
    forall j | 0 <= j < |ns| && j != i ensures ns[j].addr != ns[i].addr {
      if i < j { Before(ns, i, j); } else { Before(ns, j, i); }
    }
  }

  // ---- free ----

  /** Block b belongs between ns[t] and its successor, and overlaps neither. */
  ghost predicate Slot(ns: seq<Node>, b: Node, t: nat) {
    t < |ns| && ns[t].End() <= b.addr && ns[0].addr < b.addr && b.size >= 1
    && (t + 1 < |ns| ==> b.End() <= ns[t + 1].addr)
  }

  predicate Upper(ns: seq<Node>, b: Node, t: nat)
    requires t < |ns|
  {
    b.End() == Next(ns, t)
  }

  /** The list after freeing b: joined with the block above, the one below, both or neither. */
  function Freed(ns: seq<Node>, b: Node, t: nat): seq<Node>
    requires t < |ns|
  {
    var up := t + 1 < |ns| && Upper(ns, b, t);
    var b1 := if up then Node(b.addr, b.size + ns[t + 1].size) else b;
    var rest := if up then ns[t + 2..] else ns[t + 1..];
    if ns[t].End() == b.addr then ns[..t] + [Node(ns[t].addr, ns[t].size + b1.size)] + rest
    else ns[..t + 1] + [b1] + rest
  }

  /** free's two conditionals. */
  function Join(mem: Mem, p: nat, bp: nat): Mem
    requires p in mem && bp in mem && mem[p].ptr in mem
  {
    var q := mem[p].ptr;
    var hb := if bp + mem[bp].size == q then Header(mem[q].ptr, mem[bp].size + mem[q].size) else mem[bp].(ptr := q);
    var mem := mem[bp := hb];
    mem[p := if p + mem[p].size == bp then Header(hb.ptr, mem[p].size + hb.size) else mem[p].(ptr := bp)]
  }

  /** Node i of the new list, by where it comes from; up and low say which neighbours were joined. */
  lemma FreedAt(ns: seq<Node>, b: Node, t: nat, up: bool, low: bool, i: nat)
    requires t < |ns| && up == (t + 1 < |ns| && Upper(ns, b, t)) && low == (ns[t].End() == b.addr)
    requires i < |Freed(ns, b, t)|
    ensures var r := Freed(ns, b, t);
      var k := i - (if low then 0 else 1) + (if up then 1 else 0);
      && |r| == |ns| + (if low then 0 else 1) - (if up then 1 else 0)
      && (i < t || (i == t && !low) ==> r[i] == ns[i])
      && (i == t && low ==> r[i] == Node(ns[t].addr, b.End() - ns[t].addr + (if up then ns[t + 1].size else 0)))
      && (i == t + 1 && !low ==> r[i] == Node(b.addr, b.size + (if up then ns[t + 1].size else 0)))
      && (i > t + (if low then 0 else 1) ==> r[i] == ns[k])
  {
  }

  lemma FreedCoalesced(ns: seq<Node>, b: Node, t: nat)
    requires Coalesced(ns) && Slot(ns, b, t)
    ensures Coalesced(Freed(ns, b, t)) && Freed(ns, b, t)[0] == ns[0]
    ensures t < |Freed(ns, b, t)| && Freed(ns, b, t)[t].addr == ns[t].addr
  {
    var r := Freed(ns, b, t);
    var up, low := t + 1 < |ns| && Upper(ns, b, t), ns[t].End() == b.addr;
    FreedAt(ns, b, t, up, low, 0);
    FreedAt(ns, b, t, up, low, t);
    hide Freed;
    forall i | 1 <= i < |r| ensures r[i].size >= 1 {
      FreedAt(ns, b, t, up, low, i);
    }
    forall i | 0 <= i < |r| - 1 ensures Gap(r, i) {
      FreedGap(ns, b, t, i);
    }
  }

  lemma FreedGap(ns: seq<Node>, b: Node, t: nat, i: nat)
    requires Coalesced(ns) && Slot(ns, b, t) && i < |Freed(ns, b, t)| - 1
    ensures Gap(Freed(ns, b, t), i)
  {
    var up, low := t + 1 < |ns| && Upper(ns, b, t), ns[t].End() == b.addr;
    FreedAt(ns, b, t, up, low, i);
    FreedAt(ns, b, t, up, low, i + 1);
    hide Freed;
    if i < t { assert Gap(ns, i); }
    if up && t + 2 < |ns| { assert Gap(ns, t + 1); }
    var k := i - (if low then 0 else 1) + (if up then 1 else 0);
    if t < k < |ns| - 1 { assert Gap(ns, k); }
  }

  lemma FreedHolds(ns: seq<Node>, b: Node, t: nat)
    requires t < |ns| && ns[t].End() <= b.addr
    ensures exists g ::
      0 <= g < |Freed(ns, b, t)| && Freed(ns, b, t)[g].addr <= b.addr && b.End() <= Freed(ns, b, t)[g].End()
  {
    var low := ns[t].End() == b.addr;
    FreedAt(ns, b, t, t + 1 < |ns| && Upper(ns, b, t), low, if low then t else t + 1);
  }

  lemma FreedNext(ns: seq<Node>, b: Node, t: nat, up: bool, low: bool, i: nat)
    requires Coalesced(ns) && Slot(ns, b, t)
    requires up == (t + 1 < |ns| && Upper(ns, b, t)) && low == (ns[t].End() == b.addr)
    requires i < |Freed(ns, b, t)|
    ensures var r := Freed(ns, b, t);
      var k := i - (if low then 0 else 1) + (if up then 1 else 0);
      && (i < t ==> Next(r, i) == Next(ns, i))
      && (i == t && !low ==> Next(r, i) == b.addr)
      && (i >= t && (i > t || low) ==> Next(r, i) == Next(ns, k))
  {
    FreedCoalesced(ns, b, t);
    FreedAt(ns, b, t, up, low, i);
    FreedAt(ns, b, t, up, low, 0);
    if i + 1 < |Freed(ns, b, t)| { FreedAt(ns, b, t, up, low, i + 1); }
  }

  lemma SlotFresh(ns: seq<Node>, b: Node, t: nat)
    requires Coalesced(ns) && Slot(ns, b, t)
    ensures forall i :: 0 <= i < |ns| ==> ns[i].addr != b.addr
    ensures Upper(ns, b, t) ==> t + 1 < |ns|
  {
    forall i | 0 <= i < |ns| ensures ns[i].addr != b.addr {
      if i < t { Before(ns, i, t); }
      if i > t + 1 { Before(ns, t + 1, i); }
    }
  }

  /** What Join leaves in memory, in terms of the list. */
  lemma JoinMem(mem: Mem, ns: seq<Node>, b: Node, t: nat)
    requires Coalesced(ns) && Linked(mem, ns) && Slot(ns, b, t)
    requires b.addr in mem && mem[b.addr].size == b.size
    ensures ns[t].addr in mem && mem[ns[t].addr].ptr in mem
    ensures var m := Join(mem, ns[t].addr, b.addr);
      var up, low := t + 1 < |ns| && Upper(ns, b, t), ns[t].End() == b.addr;
      var size := b.size + (if up then ns[t + 1].size else 0);
      var ptr := if up then Next(ns, t + 1) else Next(ns, t);
      && m.Keys == mem.Keys
      && m[ns[t].addr] == (if low then Header(ptr, ns[t].size + size) else Header(b.addr, ns[t].size))
      && m[b.addr] == Header(ptr, size)
      && (forall a :: a in mem && a != ns[t].addr && a != b.addr ==> m[a] == mem[a])
  {
    SlotFresh(ns, b, t);
    HeaderAt(mem, ns, t);
    HeaderAt(mem, ns, 0);
    if t + 1 < |ns| { HeaderAt(mem, ns, t + 1); }
  }

  lemma JoinNode(mem: Mem, ns: seq<Node>, b: Node, t: nat, i: nat)
    requires Coalesced(ns) && Linked(mem, ns) && Slot(ns, b, t) && i < |Freed(ns, b, t)|
    requires b.addr in mem && mem[b.addr].size == b.size
    ensures ns[t].addr in mem && mem[ns[t].addr].ptr in mem
    ensures var m, r := Join(mem, ns[t].addr, b.addr), Freed(ns, b, t);
      r[i].addr in m && m[r[i].addr] == Header(Next(r, i), r[i].size)
  {
    var up, low := t + 1 < |ns| && Upper(ns, b, t), ns[t].End() == b.addr;
    JoinMem(mem, ns, b, t);
    OtherAddr(ns, t);
    SlotFresh(ns, b, t);
    FreedAt(ns, b, t, up, low, i);
    FreedNext(ns, b, t, up, low, i);
  }

  lemma JoinLinked(mem: Mem, ns: seq<Node>, b: Node, t: nat)
    requires Coalesced(ns) && Linked(mem, ns) && Slot(ns, b, t)
    requires b.addr in mem && mem[b.addr].size == b.size
    ensures ns[t].addr in mem && mem[ns[t].addr].ptr in mem
    ensures Linked(Join(mem, ns[t].addr, b.addr), Freed(ns, b, t))
  {
    JoinMem(mem, ns, b, t);
    forall i | 0 <= i < |Freed(ns, b, t)|
      ensures var m, r := Join(mem, ns[t].addr, b.addr), Freed(ns, b, t);
        r[i].addr in m && m[r[i].addr] == Header(Next(r, i), r[i].size)
    {
      JoinNode(mem, ns, b, t, i);
    }
  }

  // ---- who owns each unit ----

  ghost predicate InFree(ns: seq<Node>, u: nat) {
    exists i :: 0 <= i < |ns| && ns[i].Has(u)
  }

  /** live maps the header address of each allocated block to its size. */
  ghost predicate InLive(live: map<nat, nat>, u: nat) {
    exists a :: a in live && Node(a, live[a]).Has(u)
  }

  /** Every unit ever obtained from sbrk is in exactly one free or live block. */
  ghost predicate Partition(ns: seq<Node>, live: map<nat, nat>, arena: set<nat>) {
    && (forall u: nat :: u in arena <==> InFree(ns, u) || InLive(live, u))
    && (forall u: nat :: !(InFree(ns, u) && InLive(live, u)))
    && (forall u: nat, a, b :: a in live && b in live && Node(a, live[a]).Has(u) && Node(b, live[b]).Has(u) ==> a == b)
  }

  ghost predicate Heap(mem: Mem, ns: seq<Node>, live: map<nat, nat>, arena: set<nat>) {
    && Coalesced(ns) && Linked(mem, ns) && Partition(ns, live, arena)
    && (forall a :: a in live ==> a in mem && mem[a].size == live[a] && live[a] >= 1 && a > ns[0].addr)
  }

  lemma FreedUnits(ns: seq<Node>, b: Node, t: nat, u: nat)
    requires Coalesced(ns) && Slot(ns, b, t)
    ensures InFree(Freed(ns, b, t), u) <==> InFree(ns, u) || b.Has(u)
  {
    var r := Freed(ns, b, t);
    var up, low := t + 1 < |ns| && Upper(ns, b, t), ns[t].End() == b.addr;
    FreedAt(ns, b, t, up, low, t);
    if i :| 0 <= i < |r| && r[i].Has(u) {
      FreedAt(ns, b, t, up, low, i);
      assert up ==> (ns[t + 1].Has(u) <==> b.End() <= u < b.End() + ns[t + 1].size);
      assert low ==> (ns[t].Has(u) <==> ns[t].addr <= u < b.addr);
    }
    if i :| 0 <= i < |ns| && ns[i].Has(u) {
      var k := if i <= t then i else if i == t + 1 && up then (if low then t else t + 1)
               else i + (if low then 0 else 1) - (if up then 1 else 0);
      FreedAt(ns, b, t, up, low, k);
      assert r[k].Has(u);
    }
    if b.Has(u) {
      var k := if low then t else t + 1;
      FreedAt(ns, b, t, up, low, k);
      assert r[k].Has(u);
    }
  }

  /** A live block fits between its neighbours in address order. */
  lemma LiveSlot(mem: Mem, ns: seq<Node>, live: map<nat, nat>, arena: set<nat>, bp: nat, t: nat)
    requires Heap(mem, ns, live, arena) && bp in live
    requires t < |ns| && ns[t].addr < bp && (t + 1 < |ns| ==> bp < ns[t + 1].addr)
    ensures Slot(ns, Node(bp, live[bp]), t)
  {
    var b := Node(bp, live[bp]);
    assert b.Has(bp) && InLive(live, bp);
    assert ns[t].End() <= bp by {
      assert ns[t].Has(bp) ==> InFree(ns, bp);
    }
    if t + 1 < |ns| {
      var u := ns[t + 1].addr;
      assert ns[t + 1].Has(u) && InFree(ns, u);
      assert b.Has(u) ==> InLive(live, u);
    }
  }

  /** free keeps the heap: the block's units, and no others, move from live to free. */
  lemma FreeHeap(mem: Mem, ns: seq<Node>, live: map<nat, nat>, arena: set<nat>, bp: nat, t: nat)
    requires Heap(mem, ns, live, arena) && bp in live && Slot(ns, Node(bp, live[bp]), t)
    ensures ns[t].addr in mem && mem[ns[t].addr].ptr in mem
    ensures Heap(Join(mem, ns[t].addr, bp), Freed(ns, Node(bp, live[bp]), t), live - {bp}, arena)
  {
    var b := Node(bp, live[bp]);
    FreedCoalesced(ns, b, t);
    JoinLinked(mem, ns, b, t);
    JoinMem(mem, ns, b, t);
    var r, live', m := Freed(ns, b, t), live - {bp}, Join(mem, ns[t].addr, bp);
    forall u: nat
      ensures u in arena <==> InFree(r, u) || InLive(live', u)
      ensures !(InFree(r, u) && InLive(live', u))
    {
      FreedUnits(ns, b, t, u);
      LiveWithout(live, bp, u);
      assert b.Has(u) ==> InLive(live, u);
      forall a | a in live' ensures !(b.Has(u) && Node(a, live'[a]).Has(u)) {
        assert Node(a, live'[a]).Has(u) == Node(a, live[a]).Has(u) && b.Has(u) == Node(bp, live[bp]).Has(u);
      }
    }
    forall a | a in live' ensures m[a] == mem[a] {
      NotHeader(mem, ns, live, arena, a, t);
    }
  }

  lemma LiveWithout(live: map<nat, nat>, bp: nat, u: nat)
    requires bp in live
    ensures InLive(live, u) <==> InLive(live - {bp}, u) || Node(bp, live[bp]).Has(u)
  {
    if a :| a in live && Node(a, live[a]).Has(u) && a != bp {
      assert a in live - {bp};
    }
  }

  lemma NotHeader(mem: Mem, ns: seq<Node>, live: map<nat, nat>, arena: set<nat>, a: nat, t: nat)
    requires Heap(mem, ns, live, arena) && a in live && t < |ns|
    ensures a != ns[t].addr
  {
    assert Node(a, live[a]).Has(a) && InLive(live, a);
    assert ns[t].Has(ns[t].addr) == (ns[t].size > 0);
    assert ns[t].Has(ns[t].addr) ==> InFree(ns, ns[t].addr);
  }

  // ---- malloc ----

  function Remove(ns: seq<Node>, g: nat): seq<Node>
    requires g < |ns|
  {
    ns[..g] + ns[g + 1..]
  }

  lemma RemoveList(mem: Mem, ns: seq<Node>, g: nat)
    requires Coalesced(ns) && Linked(mem, ns) && 1 <= g < |ns|
    ensures Coalesced(Remove(ns, g)) && ns[g].addr in mem && ns[g - 1].addr in mem
    ensures Linked(mem[ns[g - 1].addr := mem[ns[g - 1].addr].(ptr := mem[ns[g].addr].ptr)], Remove(ns, g))
  {
    HeaderAt(mem, ns, g);
    HeaderAt(mem, ns, g - 1);
    var r := Remove(ns, g);
    assert forall i :: 0 <= i < g ==> r[i] == ns[i];
    assert forall i :: g <= i < |r| ==> r[i] == ns[i + 1];
    hide Remove;
    OtherAddr(ns, g - 1);
    if g + 1 < |ns| { Before(ns, g - 1, g + 1); }
    forall i | 0 <= i < |r| - 1 ensures Gap(r, i) {
      if i < g - 1 { assert Gap(ns, i); }
      if i >= g { assert Gap(ns, i + 1); }
    }
    var m := mem[ns[g - 1].addr := mem[ns[g - 1].addr].(ptr := mem[ns[g].addr].ptr)];
    forall i | 0 <= i < |r| ensures r[i].addr in m && m[r[i].addr] == Header(Next(r, i), r[i].size) {
      HeaderAt(mem, ns, if i < g then i else i + 1);
    }
  }

  /** The block fits exactly: unlink it. */
  lemma TakeExact(mem: Mem, ns: seq<Node>, live: map<nat, nat>, arena: set<nat>, g: nat)
    requires Heap(mem, ns, live, arena) && 1 <= g < |ns|
    ensures ns[g].addr in mem && ns[g - 1].addr in mem
    ensures var m := mem[ns[g - 1].addr := mem[ns[g - 1].addr].(ptr := mem[ns[g].addr].ptr)];
      Heap(m, Remove(ns, g), live[ns[g].addr := ns[g].size], arena)
  {
    var b := ns[g];
    HeaderAt(mem, ns, g);
    HeaderAt(mem, ns, g - 1);
    var m := mem[ns[g - 1].addr := mem[ns[g - 1].addr].(ptr := mem[b.addr].ptr)];
    RemoveList(mem, ns, g);
    forall u: nat
      ensures InFree(ns, u) <==> InFree(Remove(ns, g), u) || b.Has(u)
      ensures !(InFree(Remove(ns, g), u) && b.Has(u))
    {
      RemoveUnits(ns, g, u);
    }
    LiveAdded(live, b, arena, ns, Remove(ns, g));
    forall a | a in live ensures m[a] == mem[a] {
      NotHeader(mem, ns, live, arena, a, g - 1);
    }
    OtherAddr(ns, g);
    Before(ns, 0, g);
  }

  lemma RemoveUnits(ns: seq<Node>, g: nat, u: nat)
    requires Coalesced(ns) && g < |ns|
    ensures InFree(ns, u) <==> InFree(Remove(ns, g), u) || ns[g].Has(u)
    ensures !(InFree(Remove(ns, g), u) && ns[g].Has(u))
  {
    var r := Remove(ns, g);
    if i :| 0 <= i < |ns| && ns[i].Has(u) && i != g {
      var k := if i < g then i else i - 1;
      assert r[k] == ns[i];
    }
    forall k | 0 <= k < |r| ensures !(r[k].Has(u) && ns[g].Has(u)) {
      var i := if k < g then k else k + 1;
      assert r[k] == ns[i];
      if i < g { Before(ns, i, g); } else { Before(ns, g, i); }
    }
  }

  /** Moving the units of b from free to live keeps the partition. */
  lemma LiveAdded(live: map<nat, nat>, b: Node, arena: set<nat>, ns: seq<Node>, r: seq<Node>)
    requires Partition(ns, live, arena) && b.size >= 1 && forall a :: a in live ==> live[a] >= 1
    requires forall u: nat :: InFree(ns, u) <==> InFree(r, u) || b.Has(u)
    requires forall u: nat :: !(InFree(r, u) && b.Has(u))
    ensures Partition(r, live[b.addr := b.size], arena)
  {
    var live' := live[b.addr := b.size];
    assert b.Has(b.addr);
    assert b.addr in live ==> Node(b.addr, live[b.addr]).Has(b.addr);
    assert InFree(ns, b.addr);
    forall u: nat ensures InLive(live', u) <==> InLive(live, u) || b.Has(u) {
      LiveWithout(live', b.addr, u);
      assert live' - {b.addr} == live;
    }
    forall u: nat, a, c | a in live' && c in live' && Node(a, live'[a]).Has(u) && Node(c, live'[c]).Has(u)
      ensures a == c
    {
      assert a != b.addr ==> Node(a, live[a]).Has(u) && InLive(live, u);
      assert c != b.addr ==> Node(c, live[c]).Has(u) && InLive(live, u);
    }
  }

  lemma SplitList(mem: Mem, ns: seq<Node>, g: nat, left: nat, h: Header)
    requires Coalesced(ns) && Linked(mem, ns) && 1 <= g < |ns| && 1 <= left < ns[g].size
    ensures ns[g].addr in mem && var p, r := ns[g].addr, ns[g := Node(ns[g].addr, left)];
      Coalesced(r) && Linked(mem[p := mem[p].(size := left)][p + left := h], r)
  {
    var p := ns[g].addr;
    HeaderAt(mem, ns, g);
    forall i | 0 <= i < |ns| && i != g ensures ns[i].addr != p + left && ns[i].addr != p {
      if i < g { Before(ns, i, g); } else { Before(ns, g, i); }
    }
    var r, m := ns[g := Node(p, left)], mem[p := mem[p].(size := left)][p + left := h];
    forall i | 0 <= i < |r| - 1 ensures Gap(r, i) {
      assert Gap(ns, i);
    }
    forall i | 0 <= i < |r| ensures r[i].addr in m && m[r[i].addr] == Header(Next(r, i), r[i].size) {
      HeaderAt(mem, ns, i);
    }
  }

  /** The block is larger: allocate its tail end. */
  lemma TakeSplit(mem: Mem, ns: seq<Node>, live: map<nat, nat>, arena: set<nat>, g: nat, left: nat, h: Header)
    requires Heap(mem, ns, live, arena) && 1 <= g < |ns| && 1 <= left < ns[g].size && h.size == ns[g].size - left
    ensures ns[g].addr in mem
    ensures var p := ns[g].addr;
      var m := mem[p := mem[p].(size := left)][p + left := h];
      Heap(m, ns[g := Node(p, left)], live[p + left := h.size], arena)
  {
    var p := ns[g].addr;
    var b := Node(p + left, h.size);
    var r := ns[g := Node(p, left)];
    SplitList(mem, ns, g, left, h);
    forall u: nat
      ensures InFree(ns, u) <==> InFree(r, u) || b.Has(u)
      ensures !(InFree(r, u) && b.Has(u))
    {
      SplitUnits(ns, g, left, u);
    }
    LiveAdded(live, b, arena, ns, r);
    assert ns[g].Has(b.addr) && InFree(ns, b.addr);
    forall a | a in live ensures a != p && a != b.addr {
      NotHeader(mem, ns, live, arena, a, g);
      assert Node(a, live[a]).Has(a) && InLive(live, a);
    }
    Before(ns, 0, g);
  }

  lemma SplitUnits(ns: seq<Node>, g: nat, left: nat, u: nat)
    requires Coalesced(ns) && 1 <= g < |ns| && 1 <= left < ns[g].size
    ensures var r, b := ns[g := Node(ns[g].addr, left)], Node(ns[g].addr + left, ns[g].size - left);
      && (InFree(ns, u) <==> InFree(r, u) || b.Has(u))
      && !(InFree(r, u) && b.Has(u))
  {
    var r, b := ns[g := Node(ns[g].addr, left)], Node(ns[g].addr + left, ns[g].size - left);
    assert ns[g].Has(u) <==> r[g].Has(u) || b.Has(u);
    if i :| 0 <= i < |ns| && ns[i].Has(u) && i != g {
      assert r[i].Has(u);
    }
    if i :| 0 <= i < |r| && r[i].Has(u) && i != g {
      assert ns[i].Has(u);
    }
    forall i | 0 <= i < |r| ensures !(r[i].Has(u) && b.Has(u)) {
      if i < g { Before(ns, i, g); } else if i > g { Before(ns, g, i); }
    }
  }

  // ---- walking the ring ----

  /** Steps along ptr from node i to node t. */
  function Steps(i: nat, t: nat, n: nat): nat
    requires i < n && t < n
  {
    if i <= t then t - i else n - i + t
  }

  function After(i: nat, n: nat): (j: nat)
    requires i < n
    ensures j < n
  {
    if i + 1 < n then i + 1 else 0
  }

  lemma Following(ns: seq<Node>, i: nat)
    requires i < |ns|
    ensures Next(ns, i) == ns[After(i, |ns|)].addr
  {
  }

  lemma Advance(i: nat, t: nat, n: nat)
    requires i < n && t < n
    ensures Steps(i, t, n) == 0 <==> i == t
    ensures i != t ==> Steps(After(i, n), t, n) == Steps(i, t, n) - 1
    ensures Steps(After(i, n), t, n) <= Steps(After(i, n), i, n)
  {
  }

  /** No block of the list has n units. */
  ghost predicate NoFit(ns: seq<Node>, n: nat) {
    forall k :: 0 <= k < |ns| ==> ns[k].size < n
  }

  /** The blocks of n units are ahead of node i, on the way round from node f. */
  ghost predicate Ahead(ns: seq<Node>, n: nat, i: nat, f: nat)
    requires i < |ns| && f < |ns|
  {
    forall k :: 0 <= k < |ns| && ns[k].size >= n ==>
      Steps(After(f, |ns|), After(i, |ns|), |ns|) <= Steps(After(f, |ns|), k, |ns|)
  }

  /** u is where n units end the first block that has them, on the way round from the block at freep. */
  ghost predicate NextFit(ns: seq<Node>, freep: nat, n: nat, f: nat, i: nat, u: nat) {
    && f < |ns| && ns[f].addr == freep && i < |ns| && Ahead(ns, n, i, f)
    && var b := ns[After(i, |ns|)]; b.size >= n && u == b.addr + b.size - n
  }

  ghost predicate FirstEnd(ns: seq<Node>, freep: nat, n: nat, u: nat) {
    exists f, i :: NextFit(ns, freep, n, f, i, u)
  }

  lemma FoundFirst(ns: seq<Node>, freep: nat, n: nat, f: nat, i: nat)
    requires f < |ns| && ns[f].addr == freep && i < |ns| && Ahead(ns, n, i, f) && ns[After(i, |ns|)].size >= n
    ensures var b := ns[After(i, |ns|)]; FirstEnd(ns, freep, n, b.addr + b.size - n)
  {
    var b := ns[After(i, |ns|)];
    assert NextFit(ns, freep, n, f, i, b.addr + b.size - n);
  }

  lemma BaseOnly(base: nat, n: nat)
    requires n >= 1
    ensures NoFit([Node(base, 0)], n)
  {
  }

  lemma Fits(ns: seq<Node>, n: nat, j: nat)
    requires j < |ns| && ns[j].size >= n
    ensures !NoFit(ns, n)
  {
  }

  lemma AheadStart(ns: seq<Node>, n: nat, f: nat)
    requires f < |ns|
    ensures Ahead(ns, n, f, f)
  {
  }

  lemma AheadNext(ns: seq<Node>, n: nat, i: nat, f: nat)
    requires i < |ns| && f < |ns| && Ahead(ns, n, i, f) && ns[After(i, |ns|)].size < n
    ensures if After(i, |ns|) == f then NoFit(ns, n) else Ahead(ns, n, After(i, |ns|), f)
  {
    var j := After(i, |ns|);
    forall k | 0 <= k < |ns| && ns[k].size >= n
      ensures j != f && Steps(After(f, |ns|), After(j, |ns|), |ns|) <= Steps(After(f, |ns|), k, |ns|)
    {
      assert Steps(After(f, |ns|), j, |ns|) <= Steps(After(f, |ns|), k, |ns|) && k != j;
    }
  }

  /** Where a block address belongs in the list. */
  lemma {:induction false} FindSlot(ns: seq<Node>, bp: nat, n: nat) returns (t: nat)
    requires Coalesced(ns) && ns[0].addr < bp && 1 <= n <= |ns|
    requires forall i :: n <= i < |ns| ==> bp <= ns[i].addr
    ensures t < |ns| && ns[t].addr < bp && (t + 1 < |ns| ==> bp <= ns[t + 1].addr)
  {
    if ns[n - 1].addr < bp { t := n - 1; } else { t := FindSlot(ns, bp, n - 1); }
  }

  /** free's loop stops exactly at the slot. */
  lemma StopsAtSlot(ns: seq<Node>, bp: nat, t: nat, i: nat)
    requires Coalesced(ns) && ns[0].addr < bp && i < |ns| && t < |ns|
    requires ns[t].addr < bp && (t + 1 < |ns| ==> bp < ns[t + 1].addr)
    ensures var p, q := ns[i].addr, Next(ns, i);
      (bp > p && bp < q) || (p >= q && (bp > p || bp < q)) <==> i == t
  {
    if i < t { Before(ns, i, t); if i + 1 < t { Before(ns, i + 1, t); } }
    if t < i { Before(ns, t, i); if t + 1 < i { Before(ns, t + 1, i); } }
    if 0 < i { Before(ns, 0, i); }
    if i + 1 < |ns| { Before(ns, i, i + 1); }
  }

  /** What a visit to node i shows. */
  lemma Visit(mem: Mem, ns: seq<Node>, live: map<nat, nat>, arena: set<nat>, i: nat, f: nat)
    requires Heap(mem, ns, live, arena) && i < |ns| && f < |ns|
    ensures ns[i].addr in mem && mem[ns[i].addr] == Header(Next(ns, i), ns[i].size)
    ensures ns[i].addr == ns[f].addr ==> i == f
    ensures ns[0].size == 0 && ns[0].addr <= ns[i].addr
  {
    HeaderAt(mem, ns, i);
    OtherAddr(ns, f);
    if i > 0 { Before(ns, 0, i); }
  }

  // ---- the allocator ----

  /** now is was and the n units from core on. */
  ghost predicate Extended(was: set<nat>, core: nat, n: nat, now: set<nat>) {
    forall u: nat :: u in now <==> u in was || core <= u < core + n
  }

  class Allocator {
    const base: nat                    // &base
    var mem: Mem
    var freep: nat                     // 0 is the null pointer
    ghost var ns: seq<Node>
    ghost var live: map<nat, nat>
    ghost var arena: set<nat>          // units obtained from sbrk
    ghost var brk: nat

    ghost predicate Valid()
      reads this
    {
      && 0 < base < brk
      && (forall u :: u in arena ==> u < brk)
      && if freep == 0 then live == map[] && arena == {}
         else Heap(mem, ns, live, arena) && ns[0].addr == base && exists f :: 0 <= f < |ns| && ns[f].addr == freep
    }

    constructor (b: nat, heapStart: nat)
      requires 0 < b < heapStart
      ensures Valid() && live == map[] && arena == {} && brk == heapStart
    {
      base, mem, freep := b, map[], 0;
      ns, live, arena, brk := [], map[], {}, heapStart;
    }

    /** free's search: the node after which bp belongs. */
    method FindPrevious(bp: nat) returns (p: nat, ghost t: nat)
      requires Valid() && bp in live
      ensures t < |ns| && p == ns[t].addr && Slot(ns, Node(bp, live[bp]), t)
    {
      t := FindSlot(ns, bp, |ns|);
      if t + 1 < |ns| { NotHeader(mem, ns, live, arena, bp, t + 1); }
      p := freep;
      ghost var i :| 0 <= i < |ns| && ns[i].addr == p;
      HeaderAt(mem, ns, i);
      while !(bp > p && bp < mem[p].ptr)
        invariant 0 <= i < |ns| && p == ns[i].addr && p in mem && mem[p].ptr == Next(ns, i)
        decreases Steps(i, t, |ns|)
      {
        StopsAtSlot(ns, bp, t, i);
        if p >= mem[p].ptr && (bp > p || bp < mem[p].ptr) {
          break;
        }
        p := mem[p].ptr;
        i := After(i, |ns|);
        HeaderAt(mem, ns, i);
      }
      StopsAtSlot(ns, bp, t, i);
      LiveSlot(mem, ns, live, arena, bp, t);
    }

    /** free, given the header address */
    method FreeBlock(bp: nat)
      requires Valid() && bp in live
      modifies this`mem, this`freep, this`ns, this`live
      ensures Valid() && freep != 0 && live == old(live) - {bp}
      ensures exists g :: 0 <= g < |ns| && ns[g].addr <= bp && bp + old(live)[bp] <= ns[g].End()
    {
      hide Partition, Linked, Freed, Join;
      var p; ghost var t;
      p, t := FindPrevious(bp);
      if t > 0 { Before(ns, 0, t); }
      ghost var b := Node(bp, live[bp]);
      FreeHeap(mem, ns, live, arena, bp, t);
      FreedCoalesced(ns, b, t);
      FreedHolds(ns, b, t);
      ns, live := Freed(ns, b, t), live - {bp};
      mem := Join(mem, p, bp);
      freep := p;
      assert ns[t].addr == freep;
    }

    /** free(ap) */
    method Free(ap: nat)
      requires Valid() && ap > 0 && ap - 1 in live
      modifies this`mem, this`freep, this`ns, this`live
      ensures Valid() && live == old(live) - {ap - 1}
    {
      FreeBlock(ap - 1);
    }

    /** morecore: core is what sbrk returned, 0 for failure; the kernel hands out memory above
        everything it handed out before, not necessarily adjacent to it. */
    method Morecore(nu: nat, core: nat) returns (p: nat)
      requires Valid() && freep != 0 && nu >= 1 && (core == 0 || core >= brk)
      modifies this
      ensures Valid() && live == old(live) && p == (if core == 0 then 0 else freep)
      ensures core == 0 ==>
        mem == old(mem) && freep == old(freep) && ns == old(ns) && arena == old(arena) && brk == old(brk)
      ensures core != 0 ==>
        && freep != 0 && brk == core + CoreUnits(nu) == core + (if nu < 4096 then 4096 else nu)
        && Extended(old(arena), core, CoreUnits(nu), arena)
        && exists g :: 0 <= g < |ns| && ns[g].size >= nu
    {
      hide Partition, Linked, Coalesced;
      if core == 0 {
        return 0;
      }
      var n := CoreUnits(nu);
      AddCore(mem, ns, live, arena, core, n, brk);
      mem := mem[core := Header(if core in mem then mem[core].ptr else 0, n)];
      live := live[core := n];
      arena := arena + Units(core, n);
      brk := core + n;
      FreeBlock(core);
      assert live == old(live);
      return freep;
    }

    /** Where freep points. */
    lemma Freep() returns (f: nat)
      requires Valid() && freep != 0
      ensures f < |ns| && ns[f].addr == freep
    {
      f :| 0 <= f < |ns| && ns[f].addr == freep;
    }

    lemma Look(i: nat, f: nat)
      requires Valid() && freep != 0 && i < |ns| && f < |ns|
      ensures ns[i].addr in mem && mem[ns[i].addr] == Header(Next(ns, i), ns[i].size)
      ensures ns[i].addr == ns[f].addr ==> i == f
    {
      Visit(mem, ns, live, arena, i, f);
    }

    /** malloc's call of morecore: afterwards some block g is large enough, and comes before freep's own. */
    method Refill(nunits: nat, core: nat) returns (p: nat, ghost f: nat, ghost g: nat)
      requires Valid() && freep != 0 && nunits >= 1 && (core == 0 || core >= brk)
      modifies this
      ensures Valid() && freep != 0 && live == old(live) && p == (if core == 0 then 0 else freep)
      ensures core == 0 ==> arena == old(arena)
      ensures core != 0 ==>
        && Extended(old(arena), core, CoreUnits(nunits), arena)
        && f < |ns| && ns[f].addr == p && p in mem && mem[p].ptr == Next(ns, f)
        && g < |ns| && ns[g].size >= nunits && Steps(After(f, |ns|), g, |ns|) <= Steps(After(f, |ns|), f, |ns|)
    {
      hide Allocator.Valid, Heap, CoreUnits, SbrkArg, Steps, Extended;
      p := Morecore(nunits, core);
      f, g := 0, 0;
      if p != 0 {
        g :| 0 <= g < |ns| && ns[g].size >= nunits;
        f := Freep();
        Look(f, f);
        Advance(f, g, |ns|);
      }
    }

    /** malloc(nbytes), with core the answer of sbrk should malloc need it. It does exactly when no free block
        is large enough. */
    method Alloc(nbytes: nat, core: nat) returns (r: nat)
      requires Valid() && nbytes <= MAXREQUEST && (core == 0 || core >= brk)
      modifies this
      ensures Valid()
      ensures var nofit := old(freep) == 0 || NoFit(old(ns), NUnits(nbytes));
        && (r == 0 <==> nofit && core == 0)
        && (nofit && core != 0 ==> Extended(old(arena), core, CoreUnits(NUnits(nbytes)), arena))
        && (!nofit || core == 0 ==> arena == old(arena))
      ensures r == 0 ==> live == old(live)
      ensures r != 0 ==>
        && r - 1 !in old(live) && live == old(live)[r - 1 := NUnits(nbytes)]
        && (live[r - 1] - 2) * 8 < nbytes <= (live[r - 1] - 1) * 8
      ensures old(freep) != 0 && !NoFit(old(ns), NUnits(nbytes)) ==>
        r != 0 && FirstEnd(old(ns), old(freep), NUnits(nbytes), r - 1)
    {
      hide Allocator.Valid, Heap, NUnits, CoreUnits, SbrkArg, Steps, NoFit, Ahead, Extended, FirstEnd;
      hide After, Next;
      RequestExact(nbytes);
      var nunits := NUnits(nbytes);
      if freep == 0 {
        Start();
        BaseOnly(base, nunits);
      }
      var prevp := freep;
      ghost var i := Freep();                                // index of prevp
      ghost var f := i;                                      // index of freep
      ghost var grown, g := false, 0;                        // after morecore, ns[g] is big enough
      ghost var ns0 := ns;
      AheadStart(ns, nunits, f);
      Look(i, f);
      var p := mem[prevp].ptr;
      while true
        invariant Valid() && freep != 0 && live == old(live)
        invariant 0 <= i < |ns| && 0 <= f < |ns| && ns[i].addr == prevp && ns[f].addr == freep && p == Next(ns, i)
        invariant !grown ==> arena == old(arena) && brk == old(brk) && ns == ns0 && Ahead(ns, nunits, i, f)
        invariant !grown && old(freep) != 0 ==> freep == old(freep)
        invariant grown ==> NoFit(ns0, nunits)
        invariant grown ==> core != 0 && 0 <= g < |ns| && ns[g].size >= nunits
                            && Steps(After(i, |ns|), g, |ns|) <= Steps(After(i, |ns|), f, |ns|)
        invariant grown ==> Extended(old(arena), core, CoreUnits(nunits), arena)
        decreases !grown, Steps(After(i, |ns|), if grown then g else f, |ns|)
      {
        ghost var j := After(i, |ns|);
        Following(ns, i);
        Look(j, f);
        Advance(j, f, |ns|);
        if grown { Advance(j, g, |ns|); }
        if mem[p].size >= nunits {
          if !grown { Fits(ns, nunits, j); }
          if !grown { FoundFirst(ns, freep, nunits, f, i); }
          r := Take(prevp, p, nunits, i);
          RequestTight(nbytes);
          return;
        }
        if !grown { AheadNext(ns, nunits, i, f); }
        if p == freep {
          p, f, g := Refill(nunits, core);
          if p == 0 {
            return 0;
          }
          grown, j := true, f;
        }
        prevp, i := p, j;
        p := mem[p].ptr;
      }
    }

    /** malloc's first call: an empty list holding base. */
    method Start()
      requires Valid() && freep == 0
      modifies this`mem, this`freep, this`ns
      ensures Valid() && freep == base && ns == [Node(base, 0)]
    {
      mem := mem[base := Header(base, 0)];
      freep := base;
      ns := [Node(base, 0)];
      assert Next(ns, 0) == base && ns[0].addr == freep;
    }

    /** Take nunits from the block p, which follows prevp. */
    method Take(prevp: nat, p: nat, nunits: nat, ghost i: nat) returns (r: nat)
      requires Valid() && freep != 0 && nunits >= 1
      requires i < |ns| && ns[i].addr == prevp && Next(ns, i) == p && p in mem && mem[p].size >= nunits
      modifies this`mem, this`freep, this`ns, this`live
      ensures Valid() && freep != 0 && r > 0
      ensures r - 1 !in old(live) && live == old(live)[r - 1 := nunits]
      ensures freep == prevp && r - 1 == p + old(mem)[p].size - nunits
    {
      hide Heap;
      ghost var j := After(i, |ns|);
      Visit(mem, ns, live, arena, j, i);
      Visit(mem, ns, live, arena, i, j);
      var q := p;
      if mem[p].size == nunits {
        TakeExact(mem, ns, live, arena, j);
        NotLive(mem, ns, live, arena, j, q);
        mem := mem[prevp := mem[prevp].(ptr := mem[p].ptr)];
        ns, live := Remove(ns, j), live[q := nunits];
      } else {
        var left := mem[p].size - nunits;
        q := p + left;
        ghost var h := Header(if q in mem then mem[q].ptr else 0, nunits);
        TakeSplit(mem, ns, live, arena, j, left, h);
        NotLive(mem, ns, live, arena, j, q);
        mem := mem[p := mem[p].(size := left)];
        mem := mem[q := Header(if q in mem then mem[q].ptr else 0, nunits)];
        ns, live := ns[j := Node(p, left)], live[q := nunits];
      }
      freep := prevp;
      assert ns[i].addr == freep;
      return q + 1;
    }
  }

  lemma NotLive(mem: Mem, ns: seq<Node>, live: map<nat, nat>, arena: set<nat>, j: nat, u: nat)
    requires Heap(mem, ns, live, arena) && j < |ns| && ns[j].Has(u)
    ensures u !in live
  {
    assert InFree(ns, u);
    assert u in live ==> Node(u, live[u]).Has(u) && InLive(live, u);
  }

  function Units(a: nat, n: nat): (s: set<nat>)
    ensures forall u: nat :: u in s <==> a <= u < a + n
  {
    if n == 0 then {} else Units(a, n - 1) + {a + n - 1}
  }

  /** Memory fresh from the kernel can be treated as a live block about to be freed. */
  lemma AddCore(mem: Mem, ns: seq<Node>, live: map<nat, nat>, arena: set<nat>, core: nat, n: nat, brk: nat)
    requires Heap(mem, ns, live, arena) && n >= 1 && ns[0].addr < brk <= core && forall u :: u in arena ==> u < brk
    ensures Heap(mem[core := Header(if core in mem then mem[core].ptr else 0, n)], ns, live[core := n],
        arena + Units(core, n))
    ensures core !in live
  {
    var b := Node(core, n);
    var m, live', arena' := mem[core := Header(if core in mem then mem[core].ptr else 0, n)], live[core := n],
      arena + Units(core, n);
    forall i | 0 <= i < |ns|
      ensures ns[i].addr != core && ns[i].addr in m && m[ns[i].addr] == Header(Next(ns, i), ns[i].size)
    {
      HeaderAt(mem, ns, i);
      assert i > 0 ==> ns[i].Has(ns[i].addr) && InFree(ns, ns[i].addr);
    }
    forall a | a in live ensures a != core {
      assert Node(a, live[a]).Has(a) && InLive(live, a);
    }
    assert live' - {core} == live;
    forall u: nat ensures InLive(live', u) <==> InLive(live, u) || b.Has(u) {
      LiveWithout(live', core, u);
    }
    forall u: nat, a, c | a in live' && c in live' && Node(a, live'[a]).Has(u) && Node(c, live'[c]).Has(u)
      ensures a == c
    {
      assert a != core ==> Node(a, live[a]).Has(u) && InLive(live, u);
      assert c != core ==> Node(c, live[c]).Has(u) && InLive(live, u);
    }
  }

  // ---- the free list is canonical ----

  /** Two coalesced lists with the same base and the same free units are the same list: what
      Valid says about live blocks and the arena leaves no choice for the free list. */
  lemma Canonical(a: seq<Node>, b: seq<Node>)
    requires Coalesced(a) && Coalesced(b) && a[0] == b[0]
    requires forall u: nat :: InFree(a, u) <==> InFree(b, u)
    ensures a == b
  {
    SamePrefix(a, b, |a|);
    SamePrefix(b, a, |b|);
  }

  lemma {:induction false} SamePrefix(a: seq<Node>, b: seq<Node>, k: nat)
    requires Coalesced(a) && Coalesced(b) && a[0] == b[0] && k <= |a|
    requires forall u: nat :: InFree(a, u) <==> InFree(b, u)
    ensures k <= |b| && a[..k] == b[..k]
  {
    if k > 1 {
      SamePrefix(a, b, k - 1);
      var i := k - 1;
      StartsLater(a, b, i);
      StartsLater(b, a, i);
      EndsSooner(a, b, i);
      EndsSooner(b, a, i);
    }
  }

  /** With the first i nodes equal, b has a node i and it starts no later than a's. */
  lemma StartsLater(a: seq<Node>, b: seq<Node>, i: nat)
    requires Coalesced(a) && Coalesced(b) && 1 <= i < |a| && i <= |b| && a[..i] == b[..i]
    requires forall u: nat :: InFree(a, u) <==> InFree(b, u)
    ensures i < |b| && b[i].addr <= a[i].addr
  {
    var u := a[i].addr;
    assert a[i].Has(u) && InFree(a, u);
    var j :| 0 <= j < |b| && b[j].Has(u);
    if j < i {
      assert b[j] == b[..i][j] == a[..i][j] == a[j];
      Before(a, j, i);
    } else if j > i {
      Before(b, i, j);
    }
  }

  lemma EndsSooner(a: seq<Node>, b: seq<Node>, i: nat)
    requires Coalesced(a) && Coalesced(b) && 1 <= i < |a| && i < |b| && a[i].addr == b[i].addr
    requires forall u: nat :: InFree(a, u) <==> InFree(b, u)
    ensures b[i].End() <= a[i].End()
  {
    var u := a[i].End();
    forall j | 0 <= j < |a| ensures !a[j].Has(u) {
      if j < i { Before(a, j, i); } else if i < j { Before(a, i, j); }
    }
    assert b[i].Has(u) ==> InFree(b, u);
  }
}
