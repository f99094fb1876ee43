/** deallocuvm's sweep over an address space: which pages its loop comes to when it skips the missing page
    tables, and which of the mapped pages it misses. */
module Sweep {
  import opened Frames

  /** The frames that hold the pages lo to hi of address space d. */
  ghost function Range(owner: map<nat, Role>, d: nat, lo: int, hi: int): set<nat> {
    set f | f in owner && owner[f].Page? && owner[f].d == d && lo <= owner[f].v < hi
  }

  lemma PteNeedsTable(mem: Memory, d: nat, v: nat)
    ensures !Present(Pde(mem, d, v / NPTE)) ==> Pte(mem, d, v) == 0
  {
  }

  lemma PteInTable(mem: Memory, d: nat, v: nat)
    requires Present(Pde(mem, d, v / NPTE)) && Addr(Pde(mem, d, v / NPTE)) < |mem|
    ensures Pte(mem, d, v) == mem[Addr(Pde(mem, d, v / NPTE))][v % NPTE]
  {
  }

  lemma NoneThere(mem: Memory, free: seq<nat>, owner: map<nat, Role>, other: set<nat>, d: nat, lo: int, hi: int)
    requires Ok(mem, free, owner, other)
    requires forall v :: lo <= v < hi && 0 <= v < USERPAGES ==> !Present(Pte(mem, d, v))
    ensures Range(owner, d, lo, hi) == {}
  {
    hide DirOk, Pte, Pde;
    forall f | f in owner && owner[f].Page? && owner[f].d == d ensures !(lo <= owner[f].v < hi) {
      assert RoleIs(mem, owner, f);
    }
  }

  /** The loop comes to page v when it starts at page a: page by page, but NPTE pages on where there is no table. */
  ghost predicate Reached(mem: Memory, d: nat, a: nat, hi: nat, v: nat)
    decreases hi - a
  {
    a < hi && (v == a || Reached(mem, d, if Present(Pde(mem, d, a / NPTE)) then a + 1 else a + NPTE, hi, v))
  }

  /** The frames of the given pages of address space d. */
  ghost function Pages(owner: map<nat, Role>, d: nat, vs: set<nat>): set<nat> {
    set f | f in owner && owner[f].Page? && owner[f].d == d && owner[f].v in vs
  }

  /** The mapped pages that the loop reaches, and no others, are unmapped and given up. */
  ghost predicate Swept(mem: Memory, owner: map<nat, Role>, mem': Memory, owner': map<nat, Role>, d: nat, lo: nat,
      hi: nat)
  {
    && (forall v: nat :: v < USERPAGES ==>
        (Present(Pte(mem', d, v)) <==> Present(Pte(mem, d, v)) && !Reached(mem, d, lo, hi, v)))
    && (forall f :: f in owner' <==>
        f in owner && !(owner[f].Page? && owner[f].d == d && Reached(mem, d, lo, hi, owner[f].v)))
    && (forall f :: f in owner' ==> owner'[f] == owner[f])
  }

  lemma SweptPages(mem: Memory, owner: map<nat, Role>, mem': Memory, owner': map<nat, Role>, d: nat, lo: nat, hi: nat,
      seen: set<nat>)
    requires forall v: nat :: Reached(mem, d, lo, hi, v) <==> v in seen
    requires forall v: nat :: v < USERPAGES ==> (Present(Pte(mem', d, v)) <==> Present(Pte(mem, d, v)) && v !in seen)
    requires owner' == owner - Pages(owner, d, seen)
    ensures Swept(mem, owner, mem', owner', d, lo, hi)
  {
    hide Reached, Pte;
  }

  lemma NoPages(owner: map<nat, Role>, d: nat)
    ensures owner == owner - Pages(owner, d, {})
  {
  }

  lemma SeenMore(owner: map<nat, Role>, d: nat, seen: set<nat>, a: nat)
    requires a !in seen
    ensures owner - Pages(owner, d, seen + {a}) ==
      owner - Pages(owner, d, seen) - Range(owner - Pages(owner, d, seen), d, a, a + 1)
  {
  }

  lemma ReachedNext(mem: Memory, d: nat, a: nat, hi: nat)
    requires a < hi
    ensures forall v: nat :: Reached(mem, d, a, hi, v) <==>
      v == a || Reached(mem, d, if Present(Pde(mem, d, a / NPTE)) then a + 1 else a + NPTE, hi, v)
  {
  }

  lemma ReachedBeyond(mem: Memory, d: nat, a: nat, hi: nat)
    requires a >= hi
    ensures forall v: nat :: !Reached(mem, d, a, hi, v)
  {
  }

  lemma {:induction false} ReachedFrom(mem: Memory, d: nat, a: nat, hi: nat, v: nat)
    requires Reached(mem, d, a, hi, v)
    ensures a <= v < hi
    decreases hi - a
  {
    hide Pde;
    if v != a { ReachedFrom(mem, d, if Present(Pde(mem, d, a / NPTE)) then a + 1 else a + NPTE, hi, v); }
  }

  /** The sweep from page lo misses the mapped page v: it starts inside a 4MB region with no table, none of
      the regions up to v's has a table, and v comes before lo's place in its region. */
  ghost predicate Missed(mem: Memory, d: nat, lo: nat, v: nat) {
    && lo / NPTE < v / NPTE && v % NPTE < lo % NPTE
    && forall j: nat :: lo / NPTE <= j < v / NPTE ==> !Present(Pde(mem, d, j))
  }

  /** Which mapped pages the loop comes to, from the directory's entries alone. */
  lemma {:induction false} SweepExact(mem: Memory, d: nat, lo: nat, hi: nat, v: nat)
    requires lo <= v < hi && Present(Pte(mem, d, v))
    ensures Reached(mem, d, lo, hi, v) <==> !Missed(mem, d, lo, v)
    decreases v - lo
  {
    hide Pde, Pte;
    PteNeedsTable(mem, d, v);
    if lo == v {
    } else if Present(Pde(mem, d, lo / NPTE)) {
      SweepExact(mem, d, lo + 1, hi, v);
      assert (lo + 1) % NPTE == 0 || (lo + 1) / NPTE == lo / NPTE;
    } else if lo + NPTE <= v {
      SweepExact(mem, d, lo + NPTE, hi, v);
      assert (lo + NPTE) / NPTE == lo / NPTE + 1 && (lo + NPTE) % NPTE == lo % NPTE;
    } else {
      if Reached(mem, d, lo + NPTE, hi, v) { ReachedFrom(mem, d, lo + NPTE, hi, v); }
      assert v / NPTE == lo / NPTE + 1;
    }
  }

  /** A sweep that starts on a 4MB boundary, or at a page whose table is there, misses nothing. */
  lemma SweepWhole(mem: Memory, d: nat, lo: nat, hi: nat, v: nat)
    requires lo <= v < hi && Present(Pte(mem, d, v)) && (lo % NPTE == 0 || Present(Pde(mem, d, lo / NPTE)))
    ensures Reached(mem, d, lo, hi, v)
  {
    SweepExact(mem, d, lo, hi, v);
  }

  /** A machine in which page 1024 is mapped and none before it: a sweep from page 1 misses it. */
  lemma HoleMissed() returns (mem: Memory, owner: map<nat, Role>)
    ensures Ok(mem, [], owner, {}) && IsDir(owner, 1)
    ensures Present(Pte(mem, 1, NPTE)) && !Reached(mem, 1, 1, NPTE + 1, NPTE)
  {
    EntryParts(2, PTE_PWU);
    EntryParts(3, PTE_PWU);
    var zero := Filled(0);
    mem := [zero, zero[1 := Entry(2, PTE_PWU)], zero[0 := Entry(3, PTE_PWU)], zero];
    owner := map[1 := Directory, 2 := Table(1, 1), 3 := Page(1, NPTE)];
    assert Pde(mem, 1, 1) == Entry(2, PTE_PWU) && Pte(mem, 1, NPTE) == Entry(3, PTE_PWU);
    forall i: nat | i != 1 ensures Pde(mem, 1, i) == 0 {
    }
    forall v: nat | v != NPTE ensures Pte(mem, 1, v) == 0 {
      if v / NPTE == 1 { assert v % NPTE != 0; }
    }
    hide Pde, Pte, Entry;
    assert RoleIs(mem, owner, 1) && RoleIs(mem, owner, 2) && RoleIs(mem, owner, 3) && DirOk(mem, owner, 1);
    ReachedNext(mem, 1, 1, NPTE + 1);
    ReachedBeyond(mem, 1, NPTE + 1, NPTE + 1);
  }

  /** No user page at or beyond n is mapped. */
  ghost predicate NoneFrom(mem: Memory, d: nat, n: nat) {
    forall v: nat :: n <= v < USERPAGES ==> !Present(Pte(mem, d, v))
  }

  /** The mapped pages are those of mem and the pages lo to hi. */
  ghost predicate Grown(mem: Memory, mem': Memory, d: nat, lo: nat, hi: nat) {
    forall v: nat :: v < USERPAGES ==> (Present(Pte(mem', d, v)) <==> Present(Pte(mem, d, v)) || lo <= v < hi)
  }

  /** Sweeping the pages added to an image leaves the image. */
  lemma SweptBack(mem0: Memory, mem: Memory, owner: map<nat, Role>, mem': Memory, owner': map<nat, Role>, d: nat,
      lo: nat, q: nat, hi: nat)
    requires NoneFrom(mem0, d, lo) && Grown(mem0, mem, d, lo, q) && q <= hi &&
      Swept(mem, owner, mem', owner', d, lo, hi)
    ensures Grown(mem0, mem', d, lo, lo)
  {
    hide Pte, Pde, Reached;
    forall v: nat | v < USERPAGES && Present(Pte(mem, d, v)) ensures Reached(mem, d, lo, hi, v) <==> lo <= v {
      if lo <= v {
        PteNeedsTable(mem, d, lo);
        SweepWhole(mem, d, lo, hi, v);
      } else if Reached(mem, d, lo, hi, v) {
        ReachedFrom(mem, d, lo, hi, v);
      }
    }
  }

  /** A sweep from page 0 gives up every page. */
  lemma SweptClean(mem: Memory, free: seq<nat>, owner: map<nat, Role>, other: set<nat>, mem': Memory,
      owner': map<nat, Role>, d: nat)
    requires Ok(mem, free, owner, other) && Swept(mem, owner, mem', owner', d, 0, USERPAGES)
    ensures NoneFrom(mem', d, 0) && owner' == owner - Range(owner, d, 0, USERPAGES)
  {
    hide DirOk, Pte, Pde, Reached;
    forall v: nat | v < USERPAGES && Present(Pte(mem, d, v)) ensures Reached(mem, d, 0, USERPAGES, v) {
      SweepWhole(mem, d, 0, USERPAGES, v);
    }
    forall f | f in owner && owner[f].Page? && owner[f].d == d
      ensures owner[f].v < USERPAGES && Reached(mem, d, 0, USERPAGES, owner[f].v)
    {
      assert RoleIs(mem, owner, f);
    }
  }

  /** In an image whose mapped pages are the first n, exactly the pages from lo on are given up. */
  lemma SweptContiguous(mem: Memory, free: seq<nat>, owner: map<nat, Role>, other: set<nat>, mem': Memory,
      owner': map<nat, Role>, d: nat, lo: nat, hi: nat, n: nat)
    requires Ok(mem, free, owner, other) && Swept(mem, owner, mem', owner', d, lo, hi) && Contiguous(mem, d, n) &&
      n <= hi
    ensures Contiguous(mem', d, if lo < n then lo else n) && owner' == owner - Range(owner, d, lo, USERPAGES)
  {
    hide DirOk, Pte, Pde, Reached;
    forall v: nat | v < USERPAGES && v < n ensures Reached(mem, d, lo, hi, v) <==> lo <= v {
      if lo <= v {
        PteNeedsTable(mem, d, lo);
        SweepWhole(mem, d, lo, hi, v);
      } else if Reached(mem, d, lo, hi, v) {
        ReachedFrom(mem, d, lo, hi, v);
      }
    }
    forall f | f in owner && owner[f].Page? && owner[f].d == d ensures owner[f].v < n && owner[f].v < USERPAGES {
      assert RoleIs(mem, owner, f);
    }
  }
}
