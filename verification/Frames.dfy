/** Physical frames and two-level page tables as one value: which frame is a page directory, a
    page table, a user page, on the free list, or in other hands. */
module Frames {
  import Bytes

  const NPTE := 1024                      // entries per page table or directory
  const USERPAGES := 0x8_0000             // KERNBASE / PGSIZE
  const PTE_PWU := 7                      // present, writeable, user

  type uint = Bytes.uint
  type Frame = f: seq<uint> | |f| == NPTE witness seq(NPTE, _ => 0)
  type Memory = seq<Frame>

  function Filled(w: uint): Frame { seq(NPTE, _ => w) }

  /** PTE_P, PTE_ADDR (as a frame number) and PTE_FLAGS of an entry. */
  predicate Present(w: uint) { w % 2 == 1 }
  function Addr(w: uint): nat { w / 4096 }
  function Flags(w: uint): nat { w % 4096 }

  /** frame | flags | PTE_P */
  function Entry(f: nat, flags: nat): (w: uint)
    requires f < 0x10_0000 && flags < 4096
  {
    f * 4096 + (if flags % 2 == 1 then flags else flags + 1)
  }

  lemma Parts4096(f: nat, g: nat)
    requires g < 4096
    ensures (f * 4096 + g) / 4096 == f && (f * 4096 + g) % 4096 == g
  {
  }

  lemma Odd4096(f: nat, g: nat)
    ensures (f * 4096 + g) % 2 == g % 2
  {
  }

  lemma EntryParts(f: nat, flags: nat)
    requires f < 0x10_0000 && flags < 4096
    ensures var w := Entry(f, flags);
      Present(w) && Addr(w) == f && Flags(w) == (if flags % 2 == 1 then flags else flags + 1)
  {
    var g := if flags % 2 == 1 then flags else flags + 1;
    Parts4096(f, g);
    Odd4096(f, g);
  }

  /** What a frame is used for. */
  datatype Role = Directory | Table(d: nat, i: nat) | Page(d: nat, v: nat)

  /** Directory entry i of directory d, and the page table entry of virtual page v; 0 if there is no table. */
  function Pde(mem: Memory, d: nat, i: nat): uint {
    if d < |mem| && i < NPTE then mem[d][i] else 0
  }

  function Pte(mem: Memory, d: nat, v: nat): uint {
    var e := Pde(mem, d, v / NPTE);
    if Present(e) && Addr(e) < |mem| then mem[Addr(e)][v % NPTE] else 0
  }

  ghost predicate IsDir(owner: map<nat, Role>, d: nat) { d in owner && owner[d] == Directory }

  /** The frame's role is what the tables say. */
  ghost predicate RoleIs(mem: Memory, owner: map<nat, Role>, f: nat)
    requires f in owner
  {
    match owner[f]
    case Directory => true
    case Table(d, i) => IsDir(owner, d) && i < NPTE && Present(Pde(mem, d, i)) && Addr(Pde(mem, d, i)) == f
    case Page(d, v) => IsDir(owner, d) && v < USERPAGES && Present(Pte(mem, d, v)) && Addr(Pte(mem, d, v)) == f
  }

  /** Every entry that is present leads to a frame held for exactly that entry. */
  ghost predicate DirOk(mem: Memory, owner: map<nat, Role>, d: nat) {
    && (forall i :: 0 <= i < NPTE && Present(Pde(mem, d, i)) ==>
          Addr(Pde(mem, d, i)) in owner && owner[Addr(Pde(mem, d, i))] == Table(d, i))
    && (forall v :: 0 <= v < USERPAGES && Present(Pte(mem, d, v)) ==>
          Addr(Pte(mem, d, v)) in owner && owner[Addr(Pte(mem, d, v))] == Page(d, v))
  }

  ghost predicate NoRepeats(s: seq<nat>) {
    forall i, j :: 0 <= i < j < |s| ==> s[i] != s[j]
  }

  /** Each frame is on the free list once, or owned by one address space in one role, or other. */
  ghost predicate Ok(mem: Memory, free: seq<nat>, owner: map<nat, Role>, other: set<nat>) {
    && |mem| <= 0x10_0000 && NoRepeats(free)
    && (forall f :: f in free ==> 0 < f < |mem| && f !in owner && f !in other)
    && (forall f :: f in other ==> 0 < f < |mem| && f !in owner)
    && (forall f :: 0 < f < |mem| ==> f in free || f in owner || f in other)
    && (forall f :: f in owner ==> 0 < f < |mem| && RoleIs(mem, owner, f))
    && (forall d :: IsDir(owner, d) ==> DirOk(mem, owner, d))
  }

  // ---- moving frames between the free list and other ----

  lemma Allocated(mem: Memory, free: seq<nat>, owner: map<nat, Role>, other: set<nat>)
    requires Ok(mem, free, owner, other) && free != []
    ensures Ok(mem, free[1..], owner, other + {free[0]}) && free[0] !in owner && free[0] !in other &&
      0 < free[0] < |mem|
  {
    hide RoleIs, DirOk;
    assert free == [free[0]] + free[1..];
    forall f | f in free[1..] ensures f != free[0] && f in free {
    }
  }

  lemma Released(mem: Memory, free: seq<nat>, owner: map<nat, Role>, other: set<nat>, f: nat)
    requires Ok(mem, free, owner, other) && f in other
    ensures Ok(mem, [f] + free, owner, other - {f})
  {
    hide RoleIs, DirOk;
    forall g ensures g in [f] + free <==> g == f || g in free {
    }
    forall i, j | 0 <= i < j < |[f] + free| ensures ([f] + free)[i] != ([f] + free)[j] {
      if i > 0 { assert free[i - 1] != free[j - 1]; } else { assert free[j - 1] in free; }
    }
  }

  /** The frames that the page tables are made of. */
  ghost predicate Structural(owner: map<nat, Role>, f: nat) {
    f in owner && !owner[f].Page?
  }

  lemma PteKept(mem: Memory, mem': Memory, free: seq<nat>, owner: map<nat, Role>, other: set<nat>, d: nat, v: nat)
    requires Ok(mem, free, owner, other) && |mem'| == |mem| && IsDir(owner, d)
    requires forall f: nat :: Structural(owner, f) ==> f < |mem| && mem'[f] == mem[f]
    ensures Pte(mem', d, v) == Pte(mem, d, v)
    ensures forall i :: Pde(mem', d, i) == Pde(mem, d, i)
  {
    assert Structural(owner, d);
    var e := Pde(mem, d, v / NPTE);
    if v / NPTE < NPTE && Present(e) {
      assert DirOk(mem, owner, d);
      assert Structural(owner, Addr(e));
    }
  }

  /** Changing the contents of user pages, free frames and other frames changes no mapping. */
  lemma ContentsChanged(mem: Memory, mem': Memory, free: seq<nat>, owner: map<nat, Role>, other: set<nat>)
    requires Ok(mem, free, owner, other) && |mem'| == |mem|
    requires forall f: nat :: Structural(owner, f) ==> f < |mem| && mem'[f] == mem[f]
    ensures Ok(mem', free, owner, other)
  {
    forall f | f in owner ensures RoleIs(mem', owner, f) {
      assert RoleIs(mem, owner, f);
      if owner[f].Table? { PteKept(mem, mem', free, owner, other, owner[f].d, 0); }
      if owner[f].Page? { PteKept(mem, mem', free, owner, other, owner[f].d, owner[f].v); }
    }
    forall d | IsDir(owner, d) ensures DirOk(mem', owner, d) {
      PteKept(mem, mem', free, owner, other, d, 0);
      assert DirOk(mem, owner, d);
      forall v | 0 <= v < USERPAGES ensures Pte(mem', d, v) == Pte(mem, d, v) {
        PteKept(mem, mem', free, owner, other, d, v);
      }
    }
  }

  // ---- changing one entry ----

  /** walkpgdir's new page table t for directory entry i. */
  function TableAdded(mem: Memory, d: nat, i: nat, t: nat): Memory
    requires d < |mem| && t < |mem| <= 0x10_0000 && i < NPTE
  {
    var mem := mem[t := Filled(0)];
    mem[d := mem[d][i := Entry(t, PTE_PWU)]]
  }

  /** The new entry and the new table, word by word. */
  lemma TableWords(mem: Memory, d: nat, i: nat, t: nat)
    requires d < |mem| && t < |mem| <= 0x10_0000 && i < NPTE && t != d
    ensures var r := TableAdded(mem, d, i, t);
      |r| == |mem| && r[d][i] == t * 4096 + 7 && forall j :: 0 <= j < NPTE ==> r[t][j] == 0
  {
  }

  lemma AddTable(mem: Memory, free: seq<nat>, owner: map<nat, Role>, other: set<nat>, d: nat, i: nat, t: nat)
    requires Ok(mem, free, owner, other) && IsDir(owner, d) && i < NPTE && !Present(Pde(mem, d, i)) && t in other
    ensures d < |mem| && t < |mem| && Ok(TableAdded(mem, d, i, t), free, owner[t := Table(d, i)], other - {t})
    ensures forall e: nat, v: nat :: IsDir(owner, e) ==> Pte(TableAdded(mem, d, i, t), e, v) == Pte(mem, e, v)
    ensures forall e: nat, j: nat :: IsDir(owner, e) && (e, j) != (d, i) ==>
      Pde(TableAdded(mem, d, i, t), e, j) == Pde(mem, e, j)
    ensures Present(Pde(TableAdded(mem, d, i, t), d, i)) && Addr(Pde(TableAdded(mem, d, i, t), d, i)) == t
  {
    var mem', owner' := TableAdded(mem, d, i, t), owner[t := Table(d, i)];
    EntryParts(t, PTE_PWU);
    assert d != t && Pde(mem', d, i) == Entry(t, PTE_PWU);
    forall e: nat, j: nat | IsDir(owner, e) && (e, j) != (d, i) ensures Pde(mem', e, j) == Pde(mem, e, j) {
    }
    forall e: nat, v: nat | IsDir(owner, e) ensures Pte(mem', e, v) == Pte(mem, e, v) {
      if (e, v / NPTE) != (d, i) && Present(Pde(mem, e, v / NPTE)) {
        assert DirOk(mem, owner, e);
        assert RoleIs(mem, owner, Addr(Pde(mem, e, v / NPTE)));
      }
    }
    hide Pde, Pte, TableAdded, Entry;
    KeepRoles(mem, mem', free, owner, owner', other, t);
  }

  /** A frame t gained the role Table(d, i); other mappings are the same. */
  lemma KeepRoles(mem: Memory, mem': Memory, free: seq<nat>, owner: map<nat, Role>, owner': map<nat, Role>,
      other: set<nat>, t: nat)
    requires Ok(mem, free, owner, other) && t in other && |mem'| == |mem|
    requires t in owner' && owner' == owner[t := owner'[t]] && !owner'[t].Directory? && RoleIs(mem', owner', t)
    requires forall e: nat, v: nat :: IsDir(owner, e) && (owner'[t].Table? || (e, v) != (owner'[t].d, owner'[t].v)) ==>
      Pte(mem', e, v) == Pte(mem, e, v)
    requires forall e: nat, j: nat :: IsDir(owner, e) && (owner'[t].Page? || (e, j) != (owner'[t].d, owner'[t].i)) ==>
      Pde(mem', e, j) == Pde(mem, e, j)
    requires owner'[t].Table? ==> !Present(Pde(mem, owner'[t].d, owner'[t].i))
    requires owner'[t].Page? ==> !Present(Pte(mem, owner'[t].d, owner'[t].v))
    ensures Ok(mem', free, owner', other - {t})
  {
    hide Pde, Pte;
    forall e ensures IsDir(owner', e) <==> IsDir(owner, e) {
    }
    forall f | f in owner' ensures RoleIs(mem', owner', f) {
      if f != t { assert RoleIs(mem, owner, f); }
    }
    forall e | IsDir(owner', e) ensures DirOk(mem', owner', e) {
      assert DirOk(mem, owner, e);
    }
  }

  /** mappages' store of one entry. */
  function PageAdded(mem: Memory, d: nat, v: nat, f: nat, flags: nat): Memory
    requires f < |mem| <= 0x10_0000 && flags < 4096 && Addr(Pde(mem, d, v / NPTE)) < |mem|
  {
    var t := Addr(Pde(mem, d, v / NPTE));
    mem[t := mem[t][v % NPTE := Entry(f, flags)]]
  }

  lemma AddPage(mem: Memory, free: seq<nat>, owner: map<nat, Role>, other: set<nat>, d: nat, v: nat, f: nat, flags: nat)
    requires Ok(mem, free, owner, other) && IsDir(owner, d) && v < USERPAGES && Present(Pde(mem, d, v / NPTE))
    requires !Present(Pte(mem, d, v)) && f in other && flags < 4096
    ensures f < |mem| && Addr(Pde(mem, d, v / NPTE)) < |mem|
    ensures var mem' := PageAdded(mem, d, v, f, flags);
      && Ok(mem', free, owner[f := Page(d, v)], other - {f})
      && Pte(mem', d, v) == Entry(f, flags)
      && (forall e: nat, w: nat :: IsDir(owner, e) && (e, w) != (d, v) ==> Pte(mem', e, w) == Pte(mem, e, w))
      && (forall e: nat, j: nat :: IsDir(owner, e) ==> Pde(mem', e, j) == Pde(mem, e, j))
      && (forall g :: 0 <= g < |mem| && !Structural(owner, g) ==> mem'[g] == mem[g])
  {
    assert DirOk(mem, owner, d);
    var t := Addr(Pde(mem, d, v / NPTE));
    assert RoleIs(mem, owner, t);
    var mem' := PageAdded(mem, d, v, f, flags);
    EntryParts(f, flags);
    forall e: nat, j: nat | IsDir(owner, e) ensures Pde(mem', e, j) == Pde(mem, e, j) {
    }
    forall e: nat, w: nat | IsDir(owner, e) && (e, w) != (d, v) ensures Pte(mem', e, w) == Pte(mem, e, w) {
      if Present(Pde(mem, e, w / NPTE)) {
        assert DirOk(mem, owner, e);
        if Addr(Pde(mem, e, w / NPTE)) == t { assert w / NPTE == v / NPTE; }
      }
    }
    KeepRoles(mem, mem', free, owner, owner[f := Page(d, v)], other, f);
  }

  /** deallocuvm clears the entry. */
  function PageDropped(mem: Memory, d: nat, v: nat): Memory
    requires Addr(Pde(mem, d, v / NPTE)) < |mem|
  {
    var t := Addr(Pde(mem, d, v / NPTE));
    mem[t := mem[t][v % NPTE := 0]]
  }

  lemma DropPage(mem: Memory, free: seq<nat>, owner: map<nat, Role>, other: set<nat>, d: nat, v: nat)
    requires Ok(mem, free, owner, other) && IsDir(owner, d) && v < USERPAGES && Present(Pte(mem, d, v))
    ensures Addr(Pde(mem, d, v / NPTE)) < |mem| && Addr(Pte(mem, d, v)) in owner
    ensures var mem', f := PageDropped(mem, d, v), Addr(Pte(mem, d, v));
      && Ok(mem', free, owner - {f}, other + {f}) && owner[f] == Page(d, v)
      && Pte(mem', d, v) == 0
      && (forall e: nat, w: nat :: IsDir(owner, e) && (e, w) != (d, v) ==> Pte(mem', e, w) == Pte(mem, e, w))
      && (forall e: nat, j: nat :: IsDir(owner, e) ==> Pde(mem', e, j) == Pde(mem, e, j))
      && (forall g :: 0 <= g < |mem| && !Structural(owner, g) ==> mem'[g] == mem[g])
  {
    assert DirOk(mem, owner, d);
    var t, f := Addr(Pde(mem, d, v / NPTE)), Addr(Pte(mem, d, v));
    assert RoleIs(mem, owner, t);
    var mem', owner' := PageDropped(mem, d, v), owner - {f};
    forall e: nat, j: nat | IsDir(owner, e) ensures Pde(mem', e, j) == Pde(mem, e, j) {
    }
    forall e: nat, w: nat | IsDir(owner, e) && (e, w) != (d, v) ensures Pte(mem', e, w) == Pte(mem, e, w) {
      if Present(Pde(mem, e, w / NPTE)) {
        assert DirOk(mem, owner, e);
        if Addr(Pde(mem, e, w / NPTE)) == t { assert w / NPTE == v / NPTE; }
      }
    }
    LoseRole(mem, mem', free, owner, other, f);
  }

  lemma LoseRole(mem: Memory, mem': Memory, free: seq<nat>, owner: map<nat, Role>, other: set<nat>, f: nat)
    requires Ok(mem, free, owner, other) && |mem'| == |mem| && f in owner && owner[f].Page?
    requires forall e: nat, v: nat :: IsDir(owner, e) && (e, v) != (owner[f].d, owner[f].v) ==>
      Pte(mem', e, v) == Pte(mem, e, v)
    requires forall e: nat, j: nat :: IsDir(owner, e) ==> Pde(mem', e, j) == Pde(mem, e, j)
    requires !Present(Pte(mem', owner[f].d, owner[f].v))
    ensures Ok(mem', free, owner - {f}, other + {f})
  {
    hide Pde, Pte;
    var owner' := owner - {f};
    forall e ensures IsDir(owner', e) <==> IsDir(owner, e) {
    }
    forall g | g in owner' ensures RoleIs(mem', owner', g) {
      assert RoleIs(mem, owner, g) && RoleIs(mem, owner, f);
    }
    forall e | IsDir(owner', e) ensures DirOk(mem', owner', e) {
      assert DirOk(mem, owner, e);
    }
  }

  // ---- whole address spaces ----

  /** A zeroed frame becomes an empty page directory. */
  lemma AddDirectory(mem: Memory, free: seq<nat>, owner: map<nat, Role>, other: set<nat>, d: nat)
    requires Ok(mem, free, owner, other) && d in other && mem[d] == Filled(0)
    ensures Ok(mem, free, owner[d := Directory], other - {d})
    ensures forall v: nat :: Pte(mem, d, v) == 0
    ensures forall i: nat :: Pde(mem, d, i) == 0
  {
    var owner' := owner[d := Directory];
    forall v: nat ensures Pte(mem, d, v) == 0 {
    }
    hide Pde, Pte;
    forall f | f in owner' ensures RoleIs(mem, owner', f) {
      if f != d { assert RoleIs(mem, owner, f); }
    }
    forall e | IsDir(owner', e) ensures DirOk(mem, owner', e) {
      if e != d { assert DirOk(mem, owner, e); }
    }
  }

  /** The directory d and its tables. */
  ghost predicate PartOf(owner: map<nat, Role>, d: nat, f: nat) {
    f in owner && (f == d || (owner[f].Table? && owner[f].d == d))
  }

  ghost function Parts(owner: map<nat, Role>, d: nat): set<nat> {
    set f | f in owner && PartOf(owner, d, f)
  }

  /** With its user pages gone, a directory and its tables can be given up together. */
  lemma DropSpace(mem: Memory, free: seq<nat>, owner: map<nat, Role>, other: set<nat>, d: nat)
    requires Ok(mem, free, owner, other) && IsDir(owner, d)
    requires forall v :: 0 <= v < USERPAGES ==> !Present(Pte(mem, d, v))
    ensures Ok(mem, free, owner - Parts(owner, d), other + Parts(owner, d))
  {
    hide Pde, Pte;
    var owner' := owner - Parts(owner, d);
    forall e ensures IsDir(owner', e) <==> IsDir(owner, e) && e != d {
    }
    forall f | f in owner' ensures RoleIs(mem, owner', f) {
      assert RoleIs(mem, owner, f);
    }
    forall e | IsDir(owner', e) ensures DirOk(mem, owner', e) {
      assert DirOk(mem, owner, e);
    }
  }

  /** Exactly the first n user pages are mapped. */
  ghost predicate Contiguous(mem: Memory, d: nat, n: nat) {
    forall v :: 0 <= v < USERPAGES ==> (Present(Pte(mem, d, v)) <==> v < n)
  }

  /** Page v of address space e has the same entry, and the page it maps the same contents. */
  ghost predicate PageKept(mem: Memory, mem': Memory, e: nat, v: nat)
    requires |mem'| == |mem|
  {
    && Pte(mem', e, v) == Pte(mem, e, v)
    && (Present(Pte(mem, e, v)) && Addr(Pte(mem, e, v)) < |mem| ==>
        mem'[Addr(Pte(mem, e, v))] == mem[Addr(Pte(mem, e, v))])
  }

  /** Every address space is still there, and no user page has changed but those from lo to hi of d. */
  ghost predicate Kept(mem: Memory, mem': Memory, owner: map<nat, Role>, owner': map<nat, Role>, d: nat, lo: int,
      hi: int)
  {
    && |mem'| == |mem|
    && (forall e :: IsDir(owner, e) ==> IsDir(owner', e))
    && (forall e: nat, v: nat :: IsDir(owner, e) && v < USERPAGES && !(e == d && lo <= v < hi) ==>
        PageKept(mem, mem', e, v))
  }

  lemma KeptTransitive(a: Memory, b: Memory, c: Memory, owner: map<nat, Role>, owner': map<nat, Role>,
      owner'': map<nat, Role>, d: nat, lo: int, hi: int)
    requires Kept(a, b, owner, owner', d, lo, hi) && Kept(b, c, owner', owner'', d, lo, hi)
    ensures Kept(a, c, owner, owner'', d, lo, hi)
  {
    hide Pte, IsDir;
    forall e: nat, v: nat | IsDir(owner, e) && v < USERPAGES && !(e == d && lo <= v < hi) ensures PageKept(a, c, e, v) {
      assert PageKept(a, b, e, v) && PageKept(b, c, e, v);
    }
  }

  /** The same entries, and the same contents of all frames in use as pages. */
  lemma KeptPages(mem: Memory, mem': Memory, free: seq<nat>, owner: map<nat, Role>, owner': map<nat, Role>,
      other: set<nat>, d: nat, lo: int, hi: int)
    requires Ok(mem, free, owner, other) && |mem'| == |mem| && (forall e :: IsDir(owner, e) ==> IsDir(owner', e))
    requires forall e: nat, v: nat :: IsDir(owner, e) && v < USERPAGES && !(e == d && lo <= v < hi) ==>
      Pte(mem', e, v) == Pte(mem, e, v)
    requires forall f :: f in owner && owner[f].Page? && !(owner[f].d == d && lo <= owner[f].v < hi) ==>
      f < |mem| && mem'[f] == mem[f]
    ensures Kept(mem, mem', owner, owner', d, lo, hi)
  {
    hide Pte;
    forall e: nat, v: nat | IsDir(owner, e) && v < USERPAGES && !(e == d && lo <= v < hi)
      ensures PageKept(mem, mem', e, v)
    {
      if Present(Pte(mem, e, v)) { PageFrame(mem, free, owner, other, e, v); }
    }
  }

  /** A page of an address space is a frame of its own. */
  lemma PageFrame(mem: Memory, free: seq<nat>, owner: map<nat, Role>, other: set<nat>, e: nat, v: nat)
    requires Ok(mem, free, owner, other) && IsDir(owner, e) && v < USERPAGES && Present(Pte(mem, e, v))
    ensures var f := Addr(Pte(mem, e, v)); 0 < f < |mem| && f in owner && owner[f] == Page(e, v)
  {
    assert DirOk(mem, owner, e);
  }
}
