/** kalloc.c and the user half of vm.c over physical frames. Sizes are in bytes, addresses in pages;
    a frame number 0 is the null pointer. */
module Vm {
  import opened Frames
  import opened Sweep
  import opened Budget
  import opened Sets

  const PGSIZE := 4096
  const KERNBASE := 0x8000_0000
  const PTE_WU := 6

  /** PGROUNDUP(sz) / PGSIZE: the first page at or beyond the byte sz. */
  function Up(sz: nat): (r: nat)
    ensures sz <= r * PGSIZE < sz + PGSIZE
  {
    (sz + PGSIZE - 1) / PGSIZE
  }

  /** Every byte below sz lies in a mapped user page. */
  ghost predicate Backed(mem: Memory, d: nat, sz: nat) {
    forall x: nat :: x < sz ==> Present(Pte(mem, d, x / PGSIZE))
  }

  /** No user page that starts at or beyond the byte sz is mapped. */
  ghost predicate NoneBeyond(mem: Memory, d: nat, sz: nat) {
    forall k: nat :: k < USERPAGES && sz <= k * PGSIZE ==> !Present(Pte(mem, d, k))
  }

  /** The user pages mapped are those of mem0 and the ones that start at a byte from lo to hi. */
  ghost predicate MappedMore(mem0: Memory, mem: Memory, d: nat, lo: nat, hi: int) {
    forall k: nat :: k < USERPAGES ==>
      (Present(Pte(mem, d, k)) <==> Present(Pte(mem0, d, k)) || lo <= k * PGSIZE < hi)
  }

  /** The user pages that start at a byte from lo to hi are fresh zeroed frames, writeable by the user. */
  ghost predicate NewBytes(mem: Memory, d: nat, lo: nat, hi: int, free: seq<nat>) {
    forall k: nat :: lo <= k * PGSIZE < hi ==> NewPage(mem, Pte(mem, d, k), free)
  }

  lemma UpPages(sz: nat, k: nat)
    ensures k < Up(sz) <==> k * PGSIZE < sz
  {
  }

  /** The pages lo to hi in bytes; end is hi, or a page less. */
  lemma GrownBytes(mem0: Memory, mem: Memory, d: nat, oldsz: nat, hi: nat, end: int, free: seq<nat>)
    requires Grown(mem0, mem, d, Up(oldsz), hi) && NewPages(mem, d, Up(oldsz), hi, free)
    requires forall k: nat :: k < hi <==> k * PGSIZE < end
    ensures MappedMore(mem0, mem, d, oldsz, end) && NewBytes(mem, d, oldsz, end, free)
  {
    hide Pte, Up, NewPage;
    forall k: nat ensures k < Up(oldsz) <==> k * PGSIZE < oldsz {
      UpPages(oldsz, k);
    }
  }

  lemma RolledBack(mem0: Memory, mem: Memory, d: nat, oldsz: nat)
    requires Grown(mem0, mem, d, Up(oldsz), Up(oldsz))
    ensures MappedMore(mem0, mem, d, oldsz, oldsz)
  {
  }

  /** allocuvm at its end, with all the pages mapped or all but the last. */
  lemma GrownAll(mem0: Memory, mem: Memory, d: nat, oldsz: nat, newsz: nat, hi: nat, free: seq<nat>)
    requires Grown(mem0, mem, d, Up(oldsz), hi) && NewPages(mem, d, Up(oldsz), hi, free) && oldsz <= newsz < KERNBASE
    ensures hi == Up(newsz) ==>
      && MappedMore(mem0, mem, d, oldsz, newsz) && NewBytes(mem, d, oldsz, newsz, free)
      && (Backed(mem0, d, oldsz) ==> Backed(mem, d, newsz))
    ensures newsz > 0 && hi == Up(newsz) - 1 ==>
      var last := (newsz - 1) / PGSIZE * PGSIZE;
      MappedMore(mem0, mem, d, oldsz, last) && NewBytes(mem, d, oldsz, last, free)
  {
    hide Pte, NewPage, Backed, MappedMore, NewBytes, Grown, NewPages;
    forall k: nat ensures k < Up(newsz) <==> k * PGSIZE < newsz {
      UpPages(newsz, k);
    }
    if hi == Up(newsz) {
      GrownBytes(mem0, mem, d, oldsz, hi, newsz, free);
      if Backed(mem0, d, oldsz) { MoreBacked(mem0, mem, d, oldsz, newsz); }
    }
    if newsz > 0 && hi == Up(newsz) - 1 {
      var last := (newsz - 1) / PGSIZE;
      assert hi == last;
      forall k: nat ensures k < hi <==> k * PGSIZE < last * PGSIZE {
      }
      GrownBytes(mem0, mem, d, oldsz, hi, last * PGSIZE, free);
    }
  }

  /** Of the user pages that start at a byte from newsz to oldsz the ones that the 4MB skip misses are left, and none
      if every byte below oldsz was mapped; no other page goes. */
  ghost predicate SweptBytes(mem0: Memory, mem: Memory, d: nat, newsz: nat, oldsz: nat) {
    && (forall k: nat :: k < USERPAGES ==>
        (Present(Pte(mem, d, k)) <==>
         Present(Pte(mem0, d, k)) && (!(newsz <= k * PGSIZE < oldsz) || Missed(mem0, d, Up(newsz), k))))
    && (Backed(mem0, d, oldsz) ==> forall k: nat :: newsz <= k * PGSIZE < oldsz ==> !Present(Pte(mem, d, k)))
  }

  lemma SweepBytes(mem0: Memory, owner0: map<nat, Role>, mem: Memory, owner: map<nat, Role>, d: nat, newsz: nat,
      oldsz: nat)
    requires Swept(mem0, owner0, mem, owner, d, Up(newsz), Up(oldsz)) && newsz < oldsz <= KERNBASE
    ensures SweptBytes(mem0, mem, d, newsz, oldsz)
  {
    hide Pte, Pde, Reached, Missed, Up;
    forall k: nat | k < USERPAGES && Present(Pte(mem0, d, k))
      ensures Reached(mem0, d, Up(newsz), Up(oldsz), k) <==>
        newsz <= k * PGSIZE < oldsz && !Missed(mem0, d, Up(newsz), k)
    {
      UpPages(newsz, k);
      UpPages(oldsz, k);
      if Up(newsz) <= k < Up(oldsz) { SweepExact(mem0, d, Up(newsz), Up(oldsz), k); }
      else if Reached(mem0, d, Up(newsz), Up(oldsz), k) { ReachedFrom(mem0, d, Up(newsz), Up(oldsz), k); }
    }
    if Backed(mem0, d, oldsz) {
      BackedPages(mem0, d, oldsz);
      forall k: nat | newsz <= k * PGSIZE < oldsz ensures !Present(Pte(mem, d, k)) {
        UpPages(newsz, k);
        UpPages(oldsz, k);
        assert k < USERPAGES && Present(Pte(mem0, d, Up(newsz)));
        NoneMissed(mem0, d, Up(newsz), k);
      }
    }
  }

  lemma NoneMissed(mem: Memory, d: nat, lo: nat, v: nat)
    requires Present(Pte(mem, d, lo))
    ensures !Missed(mem, d, lo, v)
  {
    hide Pte, Pde;
    PteNeedsTable(mem, d, lo);
  }

  lemma MoreBacked(mem0: Memory, mem: Memory, d: nat, oldsz: nat, newsz: nat)
    requires MappedMore(mem0, mem, d, oldsz, newsz) && Backed(mem0, d, oldsz) && oldsz <= newsz < KERNBASE
    ensures Backed(mem, d, newsz)
  {
    hide Pte;
    forall x: nat | x < newsz ensures Present(Pte(mem, d, x / PGSIZE)) {
      var k := x / PGSIZE;
      assert k * PGSIZE < newsz && k < USERPAGES;
      if k * PGSIZE < oldsz {
        assert k * PGSIZE / PGSIZE == k;
        assert Present(Pte(mem0, d, k * PGSIZE / PGSIZE));
      }
    }
  }

  lemma BeyondPages(mem: Memory, d: nat, sz: nat)
    ensures NoneBeyond(mem, d, sz) <==> NoneFrom(mem, d, Up(sz))
  {
    hide Pte, Up;
    forall k: nat ensures k < Up(sz) <==> k * PGSIZE < sz {
      UpPages(sz, k);
    }
  }

  lemma BackedPages(mem: Memory, d: nat, sz: nat)
    ensures Backed(mem, d, sz) <==> forall k: nat :: k < Up(sz) ==> Present(Pte(mem, d, k))
  {
    hide Pte, Up;
    forall k: nat ensures k < Up(sz) <==> k * PGSIZE < sz {
      UpPages(sz, k);
    }
    forall k: nat | k * PGSIZE < sz ensures k * PGSIZE / PGSIZE == k {
    }
    forall x: nat | x < sz ensures x / PGSIZE * PGSIZE < sz {
    }
    if Backed(mem, d, sz) {
      forall k: nat | k < Up(sz) ensures Present(Pte(mem, d, k)) {
        assert Present(Pte(mem, d, k * PGSIZE / PGSIZE));
      }
    }
  }

  /** The word that links a free frame to the head of the list: its kernel address, or 0. */
  function Link(free: seq<nat>): uint {
    if free == [] then 0 else (KERNBASE + free[0] * PGSIZE) % 0x1_0000_0000
  }

  /** A frame as kfree leaves it. */
  function Junk(free: seq<nat>): Frame { Filled(0x0101_0101)[0 := Link(free)] }

  class Machine {
    const kernel: seq<nat>              // directory entries that setupkvm gives a table
    var mem: Memory
    var free: seq<nat>                  // kmem.freelist, in list order
    ghost var owner: map<nat, Role>
    ghost var other: set<nat>           // frames in other hands, or lost

    ghost predicate Valid()
      reads this
    {
      Ok(mem, free, owner, other) && forall k :: 0 <= k < |kernel| ==> USERPAGES / NPTE <= kernel[k] < NPTE
    }

    /** kalloc */
    method Kalloc() returns (f: nat)
      requires Valid()
      modifies this`free, this`other
      ensures Valid() && f == (if old(free) == [] then 0 else old(free)[0])
      ensures free == (if f == 0 then old(free) else old(free)[1..])
      ensures other == (if f == 0 then old(other) else old(other) + {f})
      ensures f != 0 ==> f in old(free) && f !in owner && f !in old(other) && f < |mem|
      ensures f == 0 ==> free == []
    {
      hide RoleIs, DirOk;
      if free == [] {
        return 0;
      }
      Allocated(mem, free, owner, other);
      f := free[0];
      free := free[1..];
      other := other + {f};
    }

    /** kfree of a frame that is in use: it is filled with junk, and its first word links to the list it heads. */
    method Kfree(f: nat)
      requires Valid() && f in other
      modifies this`mem, this`free, this`other
      ensures Valid() && f < |old(mem)| && mem == old(mem)[f := Junk(old(free))]
      ensures mem[f][0] == if old(free) == [] then 0 else (KERNBASE + old(free)[0] * PGSIZE) % 0x1_0000_0000
      ensures forall i :: 1 <= i < NPTE ==> mem[f][i] == 0x0101_0101
      ensures free == [f] + old(free) && other == old(other) - {f}
    {
      hide RoleIs, DirOk;
      ContentsChanged(mem, mem[f := Junk(free)], free, owner, other);
      mem := mem[f := Filled(0x0101_0101)];
      mem := mem[f := mem[f][0 := Link(free)]];
      assert mem == old(mem)[f := Junk(free)];
      Released(mem, free, owner, other, f);
      free := [f] + free;
      other := other - {f};
    }

    /** The holder of a frame stores into it. */
    method Store(f: nat, x: Frame)
      requires Valid() && f in other
      modifies this`mem
      ensures Valid() && f < |old(mem)| && mem == old(mem)[f := x]
    {
      hide RoleIs, DirOk;
      ContentsChanged(mem, mem[f := x], free, owner, other);
      mem := mem[f := x];
    }

    /** walkpgdir: the page table for directory entry i, made if asked for; 0 if there is none. */
    method Walk(d: nat, i: nat, alloc: bool) returns (t: nat)
      requires Valid() && IsDir(owner, d) && i < NPTE
      modifies this
      ensures Valid() && IsDir(owner, d)
      ensures t == 0 ==> mem == old(mem) && free == old(free) && owner == old(owner) && other == old(other)
      ensures t == 0 <==> !Present(Pde(old(mem), d, i)) && (!alloc || old(free) == [])
      ensures t != 0 ==> t < |mem| && Present(Pde(mem, d, i)) && Addr(Pde(mem, d, i)) == t
      ensures Present(Pde(old(mem), d, i)) ==>
        mem == old(mem) && free == old(free) && owner == old(owner) && other == old(other)
      ensures t != 0 && !Present(Pde(old(mem), d, i)) ==>
        && t == old(free)[0] && free == old(free)[1..] && other == old(other)
        && owner == old(owner)[t := Table(d, i)] && |mem| == |old(mem)| && t !in old(owner)
        && mem == TableAdded(old(mem), d, i, t)
        && Pde(mem, d, i) == t * 4096 + 7 && (forall j :: 0 <= j < NPTE ==> mem[t][j] == 0)
    {
      hide RoleIs, DirOk, Pte, Entry;
      if Present(mem[d][i]) {
        TableFrame(mem, free, owner, other, d, i);
        return Addr(mem[d][i]);
      }
      if !alloc {
        return 0;
      }
      t := Kalloc();
      if t == 0 {
        return 0;
      }
      AddTable(mem, free, owner, other, d, i, t);
      TableWords(mem, d, i, t);
      mem := mem[t := Filled(0)];
      mem := mem[d := mem[d][i := Entry(t, PTE_PWU)]];
      owner := owner[t := Table(d, i)];
      other := other - {t};
      assert other == old(other);
    }

    /** mappages of one page that is not mapped. */
    method MapPage(d: nat, v: nat, f: nat, flags: nat) returns (ok: bool)
      requires Valid() && IsDir(owner, d) && v < USERPAGES && f in other && flags < 4096 && !Present(Pte(mem, d, v))
      modifies this
      ensures Valid() && IsDir(owner, d)
      ensures ok <==> Present(Pde(old(mem), d, v / NPTE)) || old(free) != []
      ensures !ok ==> mem == old(mem) && free == old(free) && owner == old(owner) && other == old(other)
      ensures ok ==> Pte(mem, d, v) == Entry(f, flags) && other == old(other) - {f}
      ensures ok ==>
        Present(Pde(mem, d, v / NPTE)) && forall j: nat :: j != v / NPTE ==> Pde(mem, d, j) == Pde(old(mem), d, j)
      ensures ok ==> free == if Present(Pde(old(mem), d, v / NPTE)) then old(free) else old(free)[1..]
      ensures Outside(owner, d) == Outside(old(owner), d)
      ensures Kept(old(mem), mem, old(owner), owner, d, v, v + 1)
      ensures |mem| == |old(mem)| && mem[f] == old(mem)[f]
    {
      hide RoleIs, DirOk, Pte, Entry, Pde, Kept, Outside;
      ghost var mem0, owner0, free0, other0 := mem, owner, free, other;
      var t := Walk(d, v / NPTE, true);
      if t == 0 {
        KeptSelf(mem, owner, d, v, v + 1);
        return false;
      }
      WalkKept(mem0, mem, free0, owner0, owner, other0, d, v / NPTE, t, v, v + 1);
      assert Pte(mem, d, v) == Pte(mem0, d, v) && mem[f] == mem0[f];
      StoreKept(mem, free, owner, other, d, v, f, flags);
      OutsideTable(owner0, owner, d, t, v / NPTE);
      OutsidePage(owner, d, f, v);
      ghost var mem1, owner1 := mem, owner;
      mem := mem[t := mem[t][v % NPTE := Entry(f, flags)]];
      owner := owner[f := Page(d, v)];
      KeptTransitive(mem0, mem1, mem, owner0, owner1, owner, d, v, v + 1);
      other := other - {f};
      ok := true;
    }

    /** One round of deallocuvm: kfree the page, then clear its entry. */
    method DropPage(d: nat, v: nat)
      requires Valid() && IsDir(owner, d) && v < USERPAGES && Present(Pte(mem, d, v))
      modifies this
      ensures Valid() && IsDir(owner, d) && other == old(other)
      ensures Pte(mem, d, v) == 0 && owner == old(owner) - Range(old(owner), d, v, v + 1)
      ensures forall i: nat :: Pde(mem, d, i) == Pde(old(mem), d, i)
      ensures |mem| == |old(mem)| && Kept(old(mem), mem, old(owner), owner, d, v, v + 1)
    {
      hide RoleIs, DirOk, Pte, Kept;
      ghost var mem0, free0 := mem, free;
      PageWord(mem, free, owner, other, d, v);
      var t := Addr(mem[d][v / NPTE]);
      var f := Addr(mem[t][v % NPTE]);
      DropKept(mem, free, owner, other, d, v);
      mem := mem[f := Junk(free)];
      free := [f] + free;
      mem := mem[t := mem[t][v % NPTE := 0]];
      assert mem == Dropped(mem0, free0, d, v);
      owner := owner - {f};
    }

    /** deallocuvm: the mapped pages that its loop comes to are given up. */
    method Deallocuvm(d: nat, oldsz: nat, newsz: nat) returns (r: nat)
      requires Valid() && IsDir(owner, d) && oldsz <= KERNBASE
      modifies this
      ensures Valid() && IsDir(owner, d) && other == old(other)
      ensures r == if newsz < oldsz then newsz else oldsz
      ensures newsz >= oldsz ==> mem == old(mem) && free == old(free) && owner == old(owner)
      ensures newsz < oldsz ==> Swept(old(mem), old(owner), mem, owner, d, Up(newsz), Up(oldsz))
      ensures newsz < oldsz ==> SweptBytes(old(mem), mem, d, newsz, oldsz)
      ensures |mem| == |old(mem)| && Kept(old(mem), mem, old(owner), owner, d, Up(newsz), USERPAGES)
    {
      hide Ok, Pte, Pde, Kept, Reached, Pages, Range, Swept, SweptBytes;
      KeptSelf(mem, owner, d, Up(newsz), USERPAGES);
      if newsz >= oldsz {
        return oldsz;
      }
      ghost var mem0, owner0 := mem, owner;
      ghost var seen: set<nat> := {};
      NoPages(owner, d);
      var a := Up(newsz);
      while a * PGSIZE < oldsz
        invariant Valid() && IsDir(owner, d) && other == old(other) && Up(newsz) <= a && |mem| == |mem0|
        invariant forall i: nat :: Pde(mem, d, i) == Pde(mem0, d, i)
        invariant forall v: nat :: Reached(mem0, d, Up(newsz), Up(oldsz), v) <==>
          v in seen || Reached(mem0, d, a, Up(oldsz), v)
        invariant forall v :: v in seen ==> v < a
        invariant forall v: nat :: v < USERPAGES ==>
          (Present(Pte(mem, d, v)) <==> Present(Pte(mem0, d, v)) && v !in seen)
        invariant owner == owner0 - Pages(owner0, d, seen)
        invariant Kept(mem0, mem, owner0, owner, d, Up(newsz), USERPAGES)
      {
        ghost var mem1, owner1 := mem, owner;
        SeenMore(owner0, d, seen, a);
        ReachedNext(mem0, d, a, Up(oldsz));
        var t := Walk(d, a / NPTE, false);
        if t == 0 {
          PteNeedsTable(mem, d, a);
          NoneThere(mem, free, owner, other, d, a, a + 1);
          seen := seen + {a};
          a := a + NPTE - 1;
        } else {
          TableFrame(mem, free, owner, other, d, a / NPTE);
          PteInTable(mem, d, a);
          if Present(mem[t][a % NPTE]) {
            DropPage(d, a);
            KeptMore(mem1, mem, owner1, owner, d, a, a + 1, Up(newsz), USERPAGES);
            KeptTransitive(mem0, mem1, mem, owner0, owner1, owner, d, Up(newsz), USERPAGES);
            StillPresent(mem1, mem, owner1, owner, d, a);
          } else {
            NoneThere(mem, free, owner, other, d, a, a + 1);
          }
          seen := seen + {a};
        }
        a := a + 1;
      }
      ReachedBeyond(mem0, d, a, Up(oldsz));
      SweptPages(mem0, owner0, mem, owner, d, Up(newsz), Up(oldsz), seen);
      SweepBytes(mem0, owner0, mem, owner, d, newsz, oldsz);
      r := newsz;
    }

    /** One round of allocuvm: a zeroed frame for page a, mapped if a page table can be had; 0 if there is no frame. */
    method GrowPage(d: nat, a: nat) returns (f: nat, ok: bool)
      requires Valid() && IsDir(owner, d) && a < USERPAGES && !Present(Pte(mem, d, a))
      modifies this
      ensures Valid() && IsDir(owner, d) && Kept(old(mem), mem, old(owner), owner, d, a, a + 1)
      ensures f == (if old(free) == [] then 0 else old(free)[0])
      ensures f == 0 ==> !ok && free == old(free) == [] && other == old(other)
      ensures f != 0 ==> f < |mem| <= 0x10_0000 && f in old(free) && f !in old(other)
      ensures ok ==> other == old(other) && Pte(mem, d, a) == Entry(f, PTE_WU) && mem[f] == Filled(0)
      ensures ok ==>
        |free| == |old(free)| - (if Present(Pde(old(mem), d, a / NPTE)) then 1 else 2) &&
        forall g :: g in free ==> g in old(free)
      ensures ok ==>
        Present(Pde(mem, d, a / NPTE)) && forall j: nat :: j != a / NPTE ==> Pde(mem, d, j) == Pde(old(mem), d, j)
      ensures !ok ==> forall v: nat :: Pte(mem, d, v) == Pte(old(mem), d, v)
      ensures f != 0 && !ok ==>
        other == old(other) + {f} && free == [] && |old(free)| == 1 && !Present(Pde(old(mem), d, a / NPTE))
    {
      hide RoleIs, DirOk, Pte, Pde, Entry, Kept;
      KeptSelf(mem, owner, d, a, a + 1);
      f := Kalloc();
      if f == 0 {
        return 0, false;
      }
      ghost var mem0, owner0 := mem, owner;
      Store(f, Filled(0));
      StoreElsewhere(mem0, mem, free, owner, other, f, d, a, a + 1);
      ghost var mem1 := mem;
      ok := MapPage(d, a, f, PTE_WU);
      KeptTransitive(mem0, mem1, mem, owner0, owner0, owner, d, a, a + 1);
    }

    /** allocuvm. The result of mappages is not looked at: a page that could not be mapped for want of
        a page table is lost, and if it is the last one the growth is reported as a success. */
    method Allocuvm(d: nat, oldsz: nat, newsz: nat) returns (r: nat, ghost lost: set<nat>)
      requires Valid() && IsDir(owner, d) && oldsz <= KERNBASE && NoneBeyond(mem, d, oldsz)
      modifies this
      ensures Valid() && IsDir(owner, d) && other == old(other) + lost && |lost| <= 1 && lost !! old(other)
      ensures newsz >= KERNBASE ==> r == 0
      ensures newsz < oldsz && newsz < KERNBASE ==> r == oldsz
      ensures newsz >= KERNBASE || newsz < oldsz ==>
        mem == old(mem) && free == old(free) && owner == old(owner) && lost == {}
      ensures oldsz <= newsz < KERNBASE ==>
        var n, lo, hi := |old(free)|, Up(oldsz), Up(newsz);
        if n >= Need(old(mem), d, lo, hi) then
          && r == newsz && lost == {} && |free| == n - Need(old(mem), d, lo, hi)
          && MappedMore(old(mem), mem, d, oldsz, newsz) && NewBytes(mem, d, oldsz, newsz, old(free))
          && (Backed(old(mem), d, oldsz) ==> Backed(mem, d, newsz))
        else if LastLost(old(mem), d, lo, hi, n) then
          && r == newsz && lost != {} && var last := (newsz - 1) / PGSIZE * PGSIZE;
          && MappedMore(old(mem), mem, d, oldsz, last) && NewBytes(mem, d, oldsz, last, old(free))
        else
          && r == 0 && newsz > 0 && (lost != {} <==> LosesOne(old(mem), d, lo, hi, n))
          && MappedMore(old(mem), mem, d, oldsz, oldsz)
      ensures Kept(old(mem), mem, old(owner), owner, d, Up(oldsz), USERPAGES)
    {
      hide Ok, Pte, Pde, Entry, Kept, Need, NewPages, StartsTable, TablesGrown, LosesOne, LastLost, Grown, NoneFrom;
      hide NoneBeyond, MappedMore, NewBytes, Backed;
      ghost var mem0, owner0, lo, hi, n := mem, owner, Up(oldsz), Up(newsz), |free|;
      KeptSelf(mem, owner, d, lo, USERPAGES);
      BeyondPages(mem, d, oldsz);
      GrowNone(mem, d, lo, free);
      lost := {};
      if newsz >= KERNBASE {
        return 0, lost;
      }
      if newsz < oldsz {
        return oldsz, lost;
      }
      var a := Up(oldsz);
      while a * PGSIZE < newsz
        invariant Valid() && IsDir(owner, d) && lo <= a <= hi && other == old(other) + lost && lost !! old(other)
        invariant lost == {} ==> |free| == n - Need(mem0, d, lo, a) && TablesGrown(mem0, mem, d, lo, a)
        invariant lost == {} ==>
          Grown(mem0, mem, d, lo, a) && NewPages(mem, d, lo, a, old(free)) && forall g :: g in free ==> g in old(free)
        invariant lost != {} ==>
          |lost| == 1 && free == [] && lo < a && StopsAt(mem0, d, lo, a - 1, n) && n == Need(mem0, d, lo, a - 1) + 1
        invariant lost != {} ==> Grown(mem0, mem, d, lo, a - 1) && NewPages(mem, d, lo, a - 1, old(free))
        invariant Kept(mem0, mem, owner0, owner, d, lo, USERPAGES)
      {
        ghost var mem1, owner1 := mem, owner;
        NeedNext(mem0, d, lo, a);
        if lost == {} { TableNeeded(mem0, mem, d, lo, a); }
        NotGrownYet(mem0, mem, d, lo, if lost == {} then a else a - 1, a);
        var f, ok := GrowPage(d, a);
        KeptMore(mem1, mem, owner1, owner, d, a, a + 1, lo, USERPAGES);
        KeptTransitive(mem0, mem1, mem, owner0, owner1, owner, d, lo, USERPAGES);
        if f == 0 {
          ghost var mem2, owner2 := mem, owner;
          ghost var b := if lost == {} then a else a - 1;
          GrownSame(mem0, mem1, mem, d, lo, b);
          r := Deallocuvm(d, newsz, oldsz);
          SweptBack(mem0, mem2, owner2, mem, owner, d, lo, b, hi);
          KeptTransitive(mem0, mem2, mem, owner0, owner2, owner, d, lo, USERPAGES);
          StopExactly(mem0, d, lo, hi, b, n);
          RolledBack(mem0, mem, d, oldsz);
          return 0, lost;
        }
        if ok {
          GrowOne(mem0, mem1, mem, owner1, owner, d, lo, a, f, old(free));
          TableGrown(mem0, mem1, mem, d, lo, a);
        } else {
          GrownSame(mem0, mem1, mem, d, lo, a);
          NewSame(mem1, mem, owner1, owner, d, lo, a, old(free));
          lost := {f};
        }
        a := a + 1;
      }
      if lost != {} { StopExactly(mem0, d, lo, hi, hi - 1, n); }
      GrownAll(mem0, mem, d, oldsz, newsz, if lost == {} then hi else hi - 1, old(free));
      r := newsz;
    }

    /** The second half of freevm: the page tables, then the directory. */
    method FreeTables(d: nat)
      requires Valid() && IsDir(owner, d) && forall v :: 0 <= v < USERPAGES ==> !Present(Pte(mem, d, v))
      modifies this
      ensures Valid() && other == old(other) && owner == old(owner) - Parts(old(owner), d)
      ensures |mem| == |old(mem)| && Kept(old(mem), mem, owner, owner, d, 0, USERPAGES)
    {
      hide RoleIs, DirOk, Pte, Pde, Kept, Parts, Later;
      ghost var mem1, owner1, free1 := mem, owner, free;
      DropSpace(mem, free, owner, other, d);
      LaterEnds(mem, free, owner, other, d);
      owner := owner - Parts(owner1, d);
      other := other + Parts(owner1, d);
      KeptSelf(mem, owner, d, 0, USERPAGES);
      var i := 0;
      while i < NPTE
        invariant 0 <= i <= NPTE && Valid() && owner == owner1 - Parts(owner1, d) && d < |mem| == |mem1| &&
          mem[d] == mem1[d]
        invariant other == old(other) + Later(owner1, d, i)
        invariant Kept(mem1, mem, owner, owner, d, 0, USERPAGES)
      {
        LaterNext(mem1, free1, owner1, old(other), d, i);
        if Present(mem[d][i]) {
          ghost var mem2, free2, other2 := mem, free, other;
          Kfree(Addr(mem[d][i]));
          StoreElsewhere(mem2, mem, free2, owner, other2, Addr(mem1[d][i]), d, 0, USERPAGES);
          KeptTransitive(mem1, mem2, mem, owner, owner, owner, d, 0, USERPAGES);
        }
        i := i + 1;
      }
      ghost var mem3, free3, other3 := mem, free, other;
      Kfree(d);
      StoreElsewhere(mem3, mem, free3, owner, other3, d, d, 0, USERPAGES);
      KeptTransitive(mem1, mem3, mem, owner, owner, owner, d, 0, USERPAGES);
    }

    /** freevm: everything the address space held is free again. */
    method Freevm(d: nat)
      requires Valid() && IsDir(owner, d)
      modifies this
      ensures Valid() && other == old(other) && owner == old(owner) - Held(old(owner), d)
      ensures forall f :: f in free <==> f in old(free) || f in Held(old(owner), d)
      ensures |mem| == |old(mem)| && Kept(old(mem), mem, old(owner) - {d}, owner, d, 0, USERPAGES)
    {
      hide RoleIs, DirOk, Pte, Pde, Kept, Ok, Parts, Held, Range, Swept;
      ghost var mem0, owner0, free0 := mem, owner, free;
      var _ := Deallocuvm(d, KERNBASE, 0);
      SweptClean(mem0, free0, owner0, other, mem, owner, d);
      ghost var mem1, owner1 := mem, owner;
      HeldParts(mem0, free0, owner0, other, d);
      KeptLess(mem0, mem, owner0, owner, d);
      FreeTables(d);
      KeptTransitive(mem0, mem1, mem, owner0 - {d}, owner, owner, d, 0, USERPAGES);
      FreeRest(mem0, mem, free0, free, owner0, other, Held(owner0, d));
    }

    /** A zeroed page directory; 0 if there is no frame. */
    method NewSpace() returns (d: nat)
      requires Valid()
      modifies this
      ensures Valid() && other == old(other) && |mem| == |old(mem)|
      ensures Kept(old(mem), mem, old(owner), owner, d, 0, 0)
      ensures d == 0 <==> old(free) == []
      ensures d == 0 ==> owner == old(owner) && free == []
      ensures d != 0 ==>
        IsDir(owner, d) && d !in old(owner) && Outside(owner, d) == old(owner) && free == old(free)[1..]
      ensures d != 0 ==> Contiguous(mem, d, 0) && Tables(mem, d, {})
    {
      hide Ok, Pte, Pde, Kept, Outside, Contiguous, Tables;
      ghost var mem0, owner0 := mem, owner;
      d := Kalloc();
      KeptSelf(mem, owner, d, 0, 0);
      if d == 0 {
        return;
      }
      Store(d, Filled(0));
      StoreElsewhere(mem0, mem, free, owner, other, d, d, 0, 0);
      NewDirectory(mem, free, owner, other, d);
      owner, other := owner[d := Directory], other - {d};
      KeptTransitive(mem0, mem, mem, owner0, owner0, owner, d, 0, 0);
    }

    /** setupkvm: a directory with page tables for the kernel's part. What it had allocated when it
        fails, every frame that was free, is lost. */
    method Setupkvm() returns (d: nat, ghost lost: set<nat>)
      requires Valid()
      modifies this
      ensures Valid() && other == old(other) + lost && lost !! old(other)
      ensures d != 0 <==> |old(free)| > |AsSet(kernel)|
      ensures d != 0 ==> lost == {} && IsDir(owner, d) && d !in old(owner) && Outside(owner, d) == old(owner)
      ensures d != 0 ==> Contiguous(mem, d, 0) && forall f :: f in free ==> f in old(free)
      ensures d != 0 ==> |free| == |old(free)| - 1 - |AsSet(kernel)| && Tables(mem, d, AsSet(kernel))
      ensures d == 0 ==> owner == old(owner) && free == [] && forall f :: f in lost <==> f in old(free)
      ensures |mem| == |old(mem)| && Kept(old(mem), mem, old(owner), owner, d, 0, 0)
    {
      hide Ok, Pte, Pde, Kept, Outside, Contiguous, Parts, AsSet, Tables;
      ghost var mem0, owner0 := mem, owner;
      AsSetEmpty();
      assert kernel[..0] == [];
      lost := {};
      d := NewSpace();
      if d == 0 {
        return;
      }
      var k := 0;
      while k < |kernel|
        invariant 0 <= k <= |kernel| && Valid() && IsDir(owner, d) && other == old(other) && |mem| == |mem0|
        invariant Outside(owner, d) == owner0 && Contiguous(mem, d, 0) && forall f :: f in free ==> f in old(free)
        invariant |free| == |old(free)| - 1 - |AsSet(kernel[..k])| && Tables(mem, d, AsSet(kernel[..k]))
        invariant Kept(mem0, mem, owner0, owner, d, 0, 0)
      {
        ghost var mem1, owner1, free1 := mem, owner, free;
        AsSetNext(kernel, k);
        TablesAt(mem, d, AsSet(kernel[..k]), kernel[k]);
        var t := Walk(d, kernel[k], true);
        if t == 0 {
          DropEmpty(mem, free, owner, other, d);
          lost := Parts(owner, d);
          other := other + Parts(owner, d);
          owner := owner - Parts(owner, d);
          KeptSame(mem0, mem, owner0, owner1, d, 0);
          LostFrames(mem0, mem, old(free), free, owner, old(other), lost);
          return 0, lost;
        }
        WalkKept(mem1, mem, free1, owner1, owner, other, d, kernel[k], t, 0, 0);
        StillEmpty(mem1, mem, d);
        TablesMore(mem1, mem, d, AsSet(kernel[..k]), kernel[k]);
        OutsideTable(owner1, owner, d, t, kernel[k]);
        KeptTransitive(mem0, mem1, mem, owner0, owner1, owner, d, 0, 0);
        k := k + 1;
      }
      assert kernel[..k] == kernel;
    }

    /** One round of copyuvm: page i of d, copied to a new frame and mapped in c with the same flags. */
    method CopyPage(d: nat, c: nat, i: nat) returns (f: nat, ok: bool)
      requires Valid() && IsDir(owner, d) && IsDir(owner, c) && c != d && i < USERPAGES
      requires Present(Pte(mem, d, i)) && !Present(Pte(mem, c, i))
      modifies this
      ensures Valid() && IsDir(owner, c) && |mem| == |old(mem)| && Kept(old(mem), mem, old(owner), owner, c, i, i + 1)
      ensures Outside(owner, c) == Outside(old(owner), c) && forall g :: g in free ==> g in old(free)
      ensures f == 0 <==> old(free) == []
      ensures f == 0 ==> !ok && other == old(other)
      ensures f != 0 ==> f !in old(other) && other == if ok then old(other) else old(other) + {f}
      ensures ok ==> CopiedPage(old(mem), Pte(old(mem), d, i), mem, Pte(mem, c, i), old(free))
      ensures ok <==> |old(free)| >= if Present(Pde(old(mem), c, i / NPTE)) then 1 else 2
      ensures ok ==> |free| == |old(free)| - (if Present(Pde(old(mem), c, i / NPTE)) then 1 else 2)
      ensures ok ==>
        Present(Pde(mem, c, i / NPTE)) && forall j: nat :: j != i / NPTE ==> Pde(mem, c, j) == Pde(old(mem), c, j)
      ensures !ok ==> forall v: nat :: Pte(mem, c, v) == Pte(old(mem), c, v)
    {
      hide Ok, Pte, Pde, Entry, Kept, Outside;
      PageWord(mem, free, owner, other, d, i);
      var w := mem[Addr(mem[d][i / NPTE])][i % NPTE];
      ghost var mem0, owner0 := mem, owner;
      KeptSelf(mem, owner, c, i, i + 1);
      f := Kalloc();
      if f == 0 {
        return 0, false;
      }
      Store(f, mem[Addr(w)]);
      StoreElsewhere(mem0, mem, free, owner, other, f, c, i, i + 1);
      ghost var mem1 := mem;
      ok := MapPage(c, i, f, Flags(w));
      EntryParts(f, Flags(w));
      KeptTransitive(mem0, mem1, mem, owner0, owner0, owner, c, i, i + 1);
    }

    /** copyuvm: a child image equal to the parent's, on frames of its own. */
    method Copyuvm(d: nat, sz: nat) returns (c: nat, ghost lost: set<nat>)
      requires Valid() && IsDir(owner, d) && sz <= KERNBASE && Backed(mem, d, sz)
      modifies this
      ensures Valid() && other == old(other) + lost && lost !! old(other)
      ensures c != 0 <==> |old(free)| >= ForkNeed(kernel, Up(sz))
      ensures c != 0 ==> lost == {} && IsDir(owner, c) && c !in old(owner) && Outside(owner, c) == old(owner)
      ensures c != 0 ==> CopiedBytes(old(mem), mem, d, c, sz, old(free))
      ensures c != 0 ==> |free| == |old(free)| - ForkNeed(kernel, Up(sz))
      ensures c == 0 ==> owner == old(owner) && forall f :: f in old(free) <==> f in free || f in lost
      ensures c == 0 && |old(free)| <= |AsSet(kernel)| ==> free == []
      ensures c == 0 && |old(free)| > |AsSet(kernel)| ==>
        |lost| == if (|old(free)| - 1 - |AsSet(kernel)|) % (NPTE + 1) == 1 then 1 else 0
      ensures Kept(old(mem), mem, old(owner), owner, 0, 0, 0)
    {
      hide Ok, Pte, Pde, Kept, Outside, CopiedPage, Copied, Need, AsSet, StartsTable, TablesGrown, Tables, LosesOne,
        LastLost, Contiguous, Backed, CopiedBytes;
      ghost var mem0, owner0, free0, n := mem, owner, free, Up(sz);
      BackedPages(mem, d, sz);
      c, lost := Setupkvm();
      if c == 0 {
        CopyFailed(mem0, mem, owner0, c);
        return;
      }
      ghost var memc, left := mem, |free|;
      CopyStart(mem0, mem, owner0, owner, d, c, n, free0);
      GrowNone(mem, c, 0, free);
      NeedEmpty(mem, c, kernel, n);
      var i := 0;
      while i * PGSIZE < sz
        invariant 0 <= i <= n && Valid() && IsDir(owner, c) && IsDir(owner, d) && c != d && other == old(other) &&
          |mem| == |mem0|
        invariant c !in owner0 && Outside(owner, c) == owner0 && (forall f :: f in free ==> f in free0)
        invariant Contiguous(mem, c, i) && (forall v: nat :: v < n ==> Present(Pte(mem, d, v))) &&
          Copied(mem0, mem, d, c, i, free0)
        invariant |free| == left - Need(memc, c, 0, i) && TablesGrown(memc, mem, c, 0, i)
        invariant Kept(mem0, mem, owner0, owner, c, 0, USERPAGES)
      {
        ghost var mem1, owner1, free1 := mem, owner, free;
        NeedNext(memc, c, 0, i);
        TableNeeded(memc, mem, c, 0, i);
        ContiguousAt(mem, c, i);
        var f, ok := CopyPage(d, c, i);
        if !ok {
          if f != 0 { lost := {f}; }
          KeptMore(mem1, mem, owner1, owner, c, i, i + 1, 0, USERPAGES);
          KeptTransitive(mem0, mem1, mem, owner0, owner1, owner, c, 0, USERPAGES);
          ghost var mem2, owner2 := mem, owner;
          Freevm(c);
          CopyUndone(mem0, mem2, mem, owner0, owner2, owner, c);
          LostFrames(mem0, mem, free0, free, owner, old(other), lost);
          StopExactly(memc, c, 0, n, i, left);
          CopyLoss(memc, c, kernel, n, left);
          return 0, lost;
        }
        CopyStep(mem0, mem1, mem, owner0, owner1, owner, d, c, i, n, free0, free1);
        TableGrown(memc, mem1, mem, c, 0, i);
        i := i + 1;
      }
      CopyEnd(mem0, mem, owner0, owner, c);
      CopyBytes(mem0, mem, d, c, sz, free0);
    }
  }

  lemma TableFrame(mem: Memory, free: seq<nat>, owner: map<nat, Role>, other: set<nat>, d: nat, i: nat)
    requires Ok(mem, free, owner, other) && IsDir(owner, d) && i < NPTE && Present(Pde(mem, d, i))
    ensures var t := Addr(Pde(mem, d, i)); 0 < t < |mem| && t in owner && owner[t] == Table(d, i)
  {
    assert DirOk(mem, owner, d);
  }

  /** walkpgdir changes no user page. */
  lemma WalkKept(mem: Memory, mem': Memory, free: seq<nat>, owner: map<nat, Role>, owner': map<nat, Role>,
      other: set<nat>, d: nat, i: nat, t: nat, lo: int, hi: int)
    requires Ok(mem, free, owner, other) && IsDir(owner, d) && i < NPTE
    requires (mem' == mem && owner' == owner)
      || (!Present(Pde(mem, d, i)) && free != [] && t == free[0] < |mem| && mem' == TableAdded(mem, d, i, t) &&
          owner' == owner[t := Table(d, i)])
    ensures Kept(mem, mem', owner, owner', d, lo, hi)
    ensures forall v: nat :: Pte(mem', d, v) == Pte(mem, d, v)
    ensures forall j: nat :: j != i ==> Pde(mem', d, j) == Pde(mem, d, j)
    ensures forall f :: f in other ==> mem'[f] == mem[f]
  {
    hide Pte, Pde, RoleIs, DirOk, Entry;
    if mem' != mem {
      Allocated(mem, free, owner, other);
      AddTable(mem, free[1..], owner, other + {t}, d, i, t);
    }
    KeptPages(mem, mem', free, owner, owner', other, d, lo, hi);
  }

  /** Storing a new entry changes no other user page. */
  lemma StoreKept(mem: Memory, free: seq<nat>, owner: map<nat, Role>, other: set<nat>, d: nat, v: nat, f: nat,
      flags: nat)
    requires Ok(mem, free, owner, other) && IsDir(owner, d) && v < USERPAGES && Present(Pde(mem, d, v / NPTE))
    requires !Present(Pte(mem, d, v)) && f in other && flags < 4096
    ensures f < |mem| <= 0x10_0000 && Addr(Pde(mem, d, v / NPTE)) < |mem| && f !in owner
    ensures var mem' := PageAdded(mem, d, v, f, flags);
      && Ok(mem', free, owner[f := Page(d, v)], other - {f}) && IsDir(owner[f := Page(d, v)], d)
      && Kept(mem, mem', owner, owner[f := Page(d, v)], d, v, v + 1)
      && Pte(mem', d, v) == Entry(f, flags) && mem'[f] == mem[f]
      && forall j: nat :: Pde(mem', d, j) == Pde(mem, d, j)
  {
    hide Pte, Pde, RoleIs, DirOk, Entry;
    AddPage(mem, free, owner, other, d, v, f, flags);
    KeptPages(mem, PageAdded(mem, d, v, f, flags), free, owner, owner[f := Page(d, v)], other, d, v, v + 1);
  }

  // ---- giving pages back ----

  /** A present entry, followed through the directory and the table. */
  lemma PageWord(mem: Memory, free: seq<nat>, owner: map<nat, Role>, other: set<nat>, d: nat, v: nat)
    requires Ok(mem, free, owner, other) && IsDir(owner, d) && v < USERPAGES && Present(Pte(mem, d, v))
    ensures d < |mem| <= 0x10_0000 && Pde(mem, d, v / NPTE) == mem[d][v / NPTE]
    ensures var t := Addr(mem[d][v / NPTE]); t < |mem| && Pte(mem, d, v) == mem[t][v % NPTE]
    ensures var f := Addr(Pte(mem, d, v)); f < |mem| && f in owner && f != Addr(mem[d][v / NPTE])
  {
    hide RoleIs, DirOk;
    PteNeedsTable(mem, d, v);
    TableFrame(mem, free, owner, other, d, v / NPTE);
    PageFrame(mem, free, owner, other, d, v);
  }

  /** kfree of the page's frame, then the entry cleared. */
  function Dropped(mem: Memory, free: seq<nat>, d: nat, v: nat): Memory
    requires Addr(Pde(mem, d, v / NPTE)) < |mem| && Addr(Pte(mem, d, v)) < |mem|
  {
    var t := Addr(Pde(mem, d, v / NPTE));
    var mem := mem[Addr(Pte(mem, d, v)) := Junk(free)];
    mem[t := mem[t][v % NPTE := 0]]
  }

  lemma DropKept(mem: Memory, free: seq<nat>, owner: map<nat, Role>, other: set<nat>, d: nat, v: nat)
    requires Ok(mem, free, owner, other) && IsDir(owner, d) && v < USERPAGES && Present(Pte(mem, d, v))
    ensures Addr(Pde(mem, d, v / NPTE)) < |mem| && Addr(Pte(mem, d, v)) in owner && Addr(Pte(mem, d, v)) < |mem|
    ensures var mem', f := Dropped(mem, free, d, v), Addr(Pte(mem, d, v));
      && Ok(mem', [f] + free, owner - {f}, other) && Pte(mem', d, v) == 0 && {f} == Range(owner, d, v, v + 1)
      && Kept(mem, mem', owner, owner - {f}, d, v, v + 1)
      && forall i: nat :: Pde(mem', d, i) == Pde(mem, d, i)
  {
    hide RoleIs, DirOk, Pte, Pde;
    PteNeedsTable(mem, d, v);
    TableFrame(mem, free, owner, other, d, v / NPTE);
    PageFrame(mem, free, owner, other, d, v);
    var f, t := Addr(Pte(mem, d, v)), Addr(Pde(mem, d, v / NPTE));
    Frames.DropPage(mem, free, owner, other, d, v);
    var mem1, mem' := PageDropped(mem, d, v), Dropped(mem, free, d, v);
    assert mem' == mem1[f := Junk(free)];
    ContentsChanged(mem1, mem', free, owner - {f}, other + {f});
    Released(mem', free, owner - {f}, other + {f}, f);
    assert other + {f} - {f} == other;
    forall e: nat, w: nat | IsDir(owner, e) ensures Pte(mem', e, w) == Pte(mem1, e, w) {
      PteKept(mem1, mem', free, owner - {f}, other + {f}, e, w);
    }
    PteKept(mem1, mem', free, owner - {f}, other + {f}, d, 0);
    OnePage(mem, free, owner, other, d, v);
    KeptPages(mem, mem', free, owner, owner - {f}, other, d, v, v + 1);
  }

  lemma OnePage(mem: Memory, free: seq<nat>, owner: map<nat, Role>, other: set<nat>, d: nat, v: nat)
    requires Ok(mem, free, owner, other) && IsDir(owner, d) && v < USERPAGES && Present(Pte(mem, d, v))
    ensures {Addr(Pte(mem, d, v))} == Range(owner, d, v, v + 1)
  {
    hide DirOk, Pte, Pde;
    PageFrame(mem, free, owner, other, d, v);
    forall f | f in owner && owner[f] == Page(d, v) ensures f == Addr(Pte(mem, d, v)) {
      assert RoleIs(mem, owner, f);
    }
  }

  lemma KeptMore(mem: Memory, mem': Memory, owner: map<nat, Role>, owner': map<nat, Role>, d: nat, a: int, b: int,
      lo: int, hi: int)
    requires Kept(mem, mem', owner, owner', d, a, b) && lo <= a && b <= hi
    ensures Kept(mem, mem', owner, owner', d, lo, hi)
  {
    hide PageKept;
  }

  lemma StillPresent(mem: Memory, mem': Memory, owner: map<nat, Role>, owner': map<nat, Role>, d: nat, a: int)
    requires Kept(mem, mem', owner, owner', d, a, a + 1) && IsDir(owner, d)
    ensures forall v: nat :: v < USERPAGES && v != a ==> Pte(mem', d, v) == Pte(mem, d, v)
  {
    hide Pte;
    forall v: nat | v < USERPAGES && v != a ensures Pte(mem', d, v) == Pte(mem, d, v) {
      assert PageKept(mem, mem', d, v);
    }
  }

  // ---- growing ----

  /** Pages lo to hi are zeroed, writeable by the user, and on frames that were free. */
  ghost predicate NewPages(mem: Memory, d: nat, lo: nat, hi: nat, free: seq<nat>) {
    forall v :: lo <= v < hi ==> NewPage(mem, Pte(mem, d, v), free)
  }

  ghost predicate NewPage(mem: Memory, w: uint, free: seq<nat>) {
    Present(w) && Flags(w) == PTE_PWU && Addr(w) < |mem| && mem[Addr(w)] == Filled(0) && Addr(w) in free
  }

  /** Storing into a frame that is no one's page. */
  lemma StoreElsewhere(mem: Memory, mem': Memory, free: seq<nat>, owner: map<nat, Role>, other: set<nat>, f: nat,
      d: nat, lo: int, hi: int)
    requires Ok(mem, free, owner, other) && f in other && |mem'| == |mem| && mem' == mem[f := mem'[f]]
    ensures Kept(mem, mem', owner, owner, d, lo, hi)
    ensures IsDir(owner, d) ==> forall v: nat :: Pte(mem', d, v) == Pte(mem, d, v)
    ensures IsDir(owner, d) ==> forall i: nat :: Pde(mem', d, i) == Pde(mem, d, i)
  {
    hide RoleIs, DirOk, Pte, Pde;
    forall e: nat, v: nat | IsDir(owner, e) ensures Pte(mem', e, v) == Pte(mem, e, v) {
      PteKept(mem, mem', free, owner, other, e, v);
    }
    if IsDir(owner, d) { PteKept(mem, mem', free, owner, other, d, 0); }
    KeptPages(mem, mem', free, owner, owner, other, d, lo, hi);
  }

  lemma GrowNone(mem: Memory, d: nat, lo: nat, free: seq<nat>)
    ensures Grown(mem, mem, d, lo, lo) && NewPages(mem, d, lo, lo, free) && TablesGrown(mem, mem, d, lo, lo)
    ensures Need(mem, d, lo, lo) == 0
  {
  }

  lemma NotGrownYet(mem0: Memory, mem: Memory, d: nat, lo: nat, b: nat, a: nat)
    requires NoneFrom(mem0, d, lo) && Grown(mem0, mem, d, lo, b) && b <= a < USERPAGES && lo <= a
    ensures !Present(Pte(mem, d, a))
  {
    hide Pte;
  }

  lemma GrownSame(mem0: Memory, mem: Memory, mem': Memory, d: nat, lo: nat, b: nat)
    requires Grown(mem0, mem, d, lo, b) && forall v: nat :: Pte(mem', d, v) == Pte(mem, d, v)
    ensures Grown(mem0, mem', d, lo, b)
  {
    hide Pte;
  }

  lemma NewSame(mem: Memory, mem': Memory, owner: map<nat, Role>, owner': map<nat, Role>, d: nat, lo: nat, a: nat,
      free: seq<nat>)
    requires Kept(mem, mem', owner, owner', d, a, a + 1) && IsDir(owner, d) && a < USERPAGES &&
      NewPages(mem, d, lo, a, free)
    ensures NewPages(mem', d, lo, a, free)
  {
    hide Pte;
    forall v | lo <= v < a ensures NewPage(mem', Pte(mem', d, v), free) {
      assert PageKept(mem, mem', d, v) && NewPage(mem, Pte(mem, d, v), free);
    }
  }

  /** The image, grown by one page. */
  lemma GrowOne(mem0: Memory, mem: Memory, mem': Memory, owner: map<nat, Role>, owner': map<nat, Role>,
      d: nat, lo: nat, a: nat, f: nat, free: seq<nat>)
    requires Kept(mem, mem', owner, owner', d, a, a + 1) && IsDir(owner, d) && lo <= a < USERPAGES
    requires Grown(mem0, mem, d, lo, a) && NewPages(mem, d, lo, a, free)
    requires f < |mem'| <= 0x10_0000 && Pte(mem', d, a) == Entry(f, PTE_WU) && mem'[f] == Filled(0) && f in free
    ensures Grown(mem0, mem', d, lo, a + 1) && NewPages(mem', d, lo, a + 1, free)
  {
    hide Pte, Entry;
    EntryParts(f, PTE_WU);
    NewSame(mem, mem', owner, owner', d, lo, a, free);
    forall v | 0 <= v < USERPAGES && v != a ensures Pte(mem', d, v) == Pte(mem, d, v) {
      assert PageKept(mem, mem', d, v);
    }
  }

  // ---- giving up an address space ----

  /** Every frame of address space d: its directory, tables and pages. */
  ghost function Held(owner: map<nat, Role>, d: nat): set<nat> {
    set f | f in owner && (f == d || (!owner[f].Directory? && owner[f].d == d))
  }

  lemma HeldParts(mem: Memory, free: seq<nat>, owner: map<nat, Role>, other: set<nat>, d: nat)
    requires Ok(mem, free, owner, other)
    ensures var rest := owner - Range(owner, d, 0, USERPAGES); rest - Parts(rest, d) == owner - Held(owner, d)
    ensures Held(owner, d) <= owner.Keys
  {
  }

  /** Every frame has a place, so what is owned no more is free. */
  lemma FreeRest(mem: Memory, mem': Memory, free: seq<nat>, free': seq<nat>, owner: map<nat, Role>, other: set<nat>,
      held: set<nat>)
    requires Ok(mem, free, owner, other) && Ok(mem', free', owner - held, other) && |mem'| == |mem| &&
      held <= owner.Keys
    ensures forall f :: f in free' <==> f in free || f in held
  {
    hide RoleIs, DirOk;
  }

  /** With the owners the same, what is not free any more is lost. */
  lemma LostFrames(mem: Memory, mem': Memory, free: seq<nat>, free': seq<nat>, owner: map<nat, Role>, other: set<nat>,
      lost: set<nat>)
    requires Ok(mem, free, owner, other) && Ok(mem', free', owner, other + lost) && |mem'| == |mem| && lost !! other
    ensures forall f :: f in free <==> f in free' || f in lost
  {
    hide RoleIs, DirOk;
  }

  lemma KeptLess(mem: Memory, mem': Memory, owner: map<nat, Role>, owner': map<nat, Role>, d: nat)
    requires Kept(mem, mem', owner, owner', d, 0, USERPAGES)
    ensures Kept(mem, mem', owner - {d}, owner' - Parts(owner', d), d, 0, USERPAGES)
  {
    hide PageKept;
    forall e | IsDir(owner - {d}, e) ensures IsDir(owner' - Parts(owner', d), e) {
      assert IsDir(owner, e);
    }
  }

  /** What freevm has yet to free: the tables from entry i on, and the directory. */
  ghost function Later(owner: map<nat, Role>, d: nat, i: nat): set<nat> {
    set f | f in owner && PartOf(owner, d, f) && (f == d || owner[f].i >= i)
  }

  lemma LaterEnds(mem: Memory, free: seq<nat>, owner: map<nat, Role>, other: set<nat>, d: nat)
    requires Ok(mem, free, owner, other) && IsDir(owner, d)
    ensures Later(owner, d, 0) == Parts(owner, d) && Later(owner, d, NPTE) == {d}
  {
    hide Pde, Pte, DirOk;
    forall f | f in owner && owner[f].Table? ensures owner[f].i < NPTE {
      assert RoleIs(mem, owner, f);
    }
  }

  lemma LaterNext(mem: Memory, free: seq<nat>, owner: map<nat, Role>, other: set<nat>, d: nat, i: nat)
    requires Ok(mem, free, owner, other) && IsDir(owner, d) && i < NPTE
    ensures !Present(mem[d][i]) ==> Later(owner, d, i + 1) == Later(owner, d, i)
    ensures var f := Addr(mem[d][i]); Present(mem[d][i]) ==>
      f != d && f !in other && f < |mem| && f in Later(owner, d, i) &&
        Later(owner, d, i + 1) == Later(owner, d, i) - {f}
  {
    hide Pte, DirOk;
    if Present(mem[d][i]) { TableFrame(mem, free, owner, other, d, i); }
    forall f | f in owner && owner[f] == Table(d, i) ensures Present(mem[d][i]) && f == Addr(mem[d][i]) {
      assert RoleIs(mem, owner, f);
    }
  }

  // ---- a new address space ----

  /** The roles that have nothing to do with address space d. */
  ghost function Outside(owner: map<nat, Role>, d: nat): map<nat, Role> { owner - Held(owner, d) }

  lemma NewDirectory(mem: Memory, free: seq<nat>, owner: map<nat, Role>, other: set<nat>, d: nat)
    requires Ok(mem, free, owner, other) && d in other && mem[d] == Filled(0)
    ensures Ok(mem, free, owner[d := Directory], other - {d})
    ensures Contiguous(mem, d, 0) && Outside(owner[d := Directory], d) == owner && Tables(mem, d, {})
    ensures Kept(mem, mem, owner, owner[d := Directory], d, 0, 0)
  {
    hide Pde, Pte, DirOk;
    AddDirectory(mem, free, owner, other, d);
    KeptPages(mem, mem, free, owner, owner[d := Directory], other, d, 0, 0);
    forall f | f in owner && !owner[f].Directory? ensures owner[f].d != d {
      assert RoleIs(mem, owner, f);
    }
  }

  lemma KeptSelf(mem: Memory, owner: map<nat, Role>, d: nat, lo: int, hi: int)
    ensures Kept(mem, mem, owner, owner, d, lo, hi)
  {
  }

  lemma KeptSame(mem: Memory, mem': Memory, owner: map<nat, Role>, owner': map<nat, Role>, d: nat, e: nat)
    requires Kept(mem, mem', owner, owner', d, 0, 0)
    ensures Kept(mem, mem', owner, owner, e, 0, 0)
  {
    hide PageKept;
  }

  lemma StillEmpty(mem: Memory, mem': Memory, d: nat)
    requires Contiguous(mem, d, 0) && forall v: nat :: Pte(mem', d, v) == Pte(mem, d, v)
    ensures Contiguous(mem', d, 0)
  {
    hide Pte;
  }

  lemma OutsideTable(owner: map<nat, Role>, owner': map<nat, Role>, d: nat, t: nat, i: nat)
    requires owner' == owner || (t !in owner && owner' == owner[t := Table(d, i)])
    ensures Outside(owner', d) == Outside(owner, d)
  {
  }

  lemma OutsidePage(owner: map<nat, Role>, d: nat, f: nat, v: nat)
    requires f !in owner
    ensures Outside(owner[f := Page(d, v)], d) == Outside(owner, d)
  {
  }

  /** An address space with no user pages, given up. */
  lemma DropEmpty(mem: Memory, free: seq<nat>, owner: map<nat, Role>, other: set<nat>, d: nat)
    requires Ok(mem, free, owner, other) && IsDir(owner, d) && Contiguous(mem, d, 0)
    ensures Ok(mem, free, owner - Parts(owner, d), other + Parts(owner, d)) && Parts(owner, d) !! other
    ensures owner - Parts(owner, d) == Outside(owner, d)
  {
    hide Pte, Pde, DirOk;
    DropSpace(mem, free, owner, other, d);
    forall f | f in owner && owner[f].Page? ensures owner[f].d != d {
      assert RoleIs(mem, owner, f);
    }
  }

  // ---- copying ----

  /** Entry w of mem maps, with the flags of entry w0 of mem0 and on a frame that was free, the same contents. */
  ghost predicate CopiedPage(mem0: Memory, w0: uint, mem: Memory, w: uint, free: seq<nat>) {
    && Present(w) && Flags(w) == Flags(w0) && Addr(w0) < |mem0| && Addr(w) < |mem|
    && mem[Addr(w)] == mem0[Addr(w0)] && Addr(w) in free
  }

  ghost predicate Copied(mem0: Memory, mem: Memory, d: nat, c: nat, n: nat, free: seq<nat>) {
    forall v :: 0 <= v < n ==> CopiedPage(mem0, Pte(mem0, d, v), mem, Pte(mem, c, v), free)
  }

  /** c maps exactly the user pages that start below the byte sz, each a copy of d's. */
  ghost predicate CopiedBytes(mem0: Memory, mem: Memory, d: nat, c: nat, sz: nat, free: seq<nat>) {
    forall k: nat :: k < USERPAGES ==>
      if k * PGSIZE < sz then CopiedPage(mem0, Pte(mem0, d, k), mem, Pte(mem, c, k), free)
      else !Present(Pte(mem, c, k))
  }

  lemma CopyBytes(mem0: Memory, mem: Memory, d: nat, c: nat, sz: nat, free: seq<nat>)
    requires Contiguous(mem, c, Up(sz)) && Copied(mem0, mem, d, c, Up(sz), free)
    ensures CopiedBytes(mem0, mem, d, c, sz, free)
  {
    hide Pte, Up, CopiedPage;
    forall k: nat ensures k < Up(sz) <==> k * PGSIZE < sz {
      UpPages(sz, k);
    }
  }

  lemma CopyStart(mem0: Memory, mem: Memory, owner0: map<nat, Role>, owner: map<nat, Role>, d: nat, c: nat, n: nat,
      free: seq<nat>)
    requires Kept(mem0, mem, owner0, owner, c, 0, 0) && IsDir(owner0, d) && n <= USERPAGES
    requires forall v: nat :: v < n ==> Present(Pte(mem0, d, v))
    ensures Kept(mem0, mem, owner0, owner, c, 0, USERPAGES) && IsDir(owner, d)
    ensures forall v: nat :: v < n ==> Present(Pte(mem, d, v))
    ensures Copied(mem0, mem, d, c, 0, free)
  {
    hide Pte;
    forall v | 0 <= v < USERPAGES ensures Pte(mem, d, v) == Pte(mem0, d, v) {
      assert PageKept(mem0, mem, d, v);
    }
  }

  lemma CopyStep(mem0: Memory, mem1: Memory, mem: Memory, owner0: map<nat, Role>, owner1: map<nat, Role>,
      owner: map<nat, Role>, d: nat, c: nat, i: nat, n: nat, free0: seq<nat>, free1: seq<nat>)
    requires Kept(mem0, mem1, owner0, owner1, c, 0, USERPAGES) && Kept(mem1, mem, owner1, owner, c, i, i + 1)
    requires IsDir(owner0, d) && IsDir(owner1, c) && c !in owner0 && i < n <= USERPAGES
    requires Contiguous(mem1, c, i) && (forall v: nat :: v < n ==> Present(Pte(mem1, d, v))) &&
      Copied(mem0, mem1, d, c, i, free0)
    requires CopiedPage(mem1, Pte(mem1, d, i), mem, Pte(mem, c, i), free1) && forall f :: f in free1 ==> f in free0
    ensures Kept(mem0, mem, owner0, owner, c, 0, USERPAGES) && IsDir(owner, d)
    ensures Contiguous(mem, c, i + 1) && (forall v: nat :: v < n ==> Present(Pte(mem, d, v))) &&
      Copied(mem0, mem, d, c, i + 1, free0)
  {
    hide Pte;
    KeptMore(mem1, mem, owner1, owner, c, i, i + 1, 0, USERPAGES);
    KeptTransitive(mem0, mem1, mem, owner0, owner1, owner, c, 0, USERPAGES);
    forall v | 0 <= v < USERPAGES ensures Pte(mem, d, v) == Pte(mem1, d, v) {
      assert PageKept(mem1, mem, d, v);
    }
    forall v | 0 <= v < USERPAGES && v != i ensures Pte(mem, c, v) == Pte(mem1, c, v) {
      assert PageKept(mem1, mem, c, v);
    }
    assert PageKept(mem0, mem1, d, i);
    forall v | 0 <= v < i + 1 ensures CopiedPage(mem0, Pte(mem0, d, v), mem, Pte(mem, c, v), free0) {
      if v < i {
        assert CopiedPage(mem0, Pte(mem0, d, v), mem1, Pte(mem1, c, v), free0);
        assert PageKept(mem1, mem, c, v);
      }
    }
  }

  lemma ContiguousAt(mem: Memory, c: nat, i: nat)
    requires Contiguous(mem, c, i) && i < USERPAGES
    ensures !Present(Pte(mem, c, i))
  {
  }

  lemma CopyFailed(mem0: Memory, mem: Memory, owner: map<nat, Role>, c: nat)
    requires Kept(mem0, mem, owner, owner, c, 0, 0)
    ensures Kept(mem0, mem, owner, owner, 0, 0, 0)
  {
    hide PageKept;
  }

  lemma CopyEnd(mem0: Memory, mem: Memory, owner0: map<nat, Role>, owner: map<nat, Role>, c: nat)
    requires Kept(mem0, mem, owner0, owner, c, 0, USERPAGES) && c !in owner0
    ensures Kept(mem0, mem, owner0, owner, 0, 0, 0)
  {
    hide PageKept;
  }

  lemma CopyUndone(mem0: Memory, mem2: Memory, mem: Memory, owner0: map<nat, Role>, owner2: map<nat, Role>,
      owner: map<nat, Role>, c: nat)
    requires Kept(mem0, mem2, owner0, owner2, c, 0, USERPAGES) && c !in owner0
    requires Kept(mem2, mem, owner2 - {c}, owner, c, 0, USERPAGES) && owner == owner2 - Held(owner2, c)
    ensures Kept(mem0, mem, owner0, owner, 0, 0, 0) && owner == Outside(owner2, c)
  {
    hide PageKept, Held;
    assert Kept(mem0, mem2, owner0, owner2 - {c}, c, 0, USERPAGES);
    KeptTransitive(mem0, mem2, mem, owner0, owner2 - {c}, owner, c, 0, USERPAGES);
  }
}
