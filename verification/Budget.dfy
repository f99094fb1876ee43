/** How many frames it takes to map a range of pages, page tables included, and what happens to allocuvm
    and copyuvm when there are fewer. */
module Budget {
  import opened Frames
  import opened Sets

  /** How many directory entries from i to j have no page table. */
  ghost function Absent(mem: Memory, d: nat, i: int, j: int): nat
    decreases j - i
  {
    if i < 0 || i >= j then 0 else (if Present(Pde(mem, d, i)) then 0 else 1) + Absent(mem, d, i + 1, j)
  }

  /** The frames it takes to map pages a to b: one each, and the missing page tables. */
  ghost function Need(mem: Memory, d: nat, a: nat, b: nat): nat {
    if a >= b then 0 else b - a + Absent(mem, d, a / NPTE, (b - 1) / NPTE + 1)
  }

  lemma {:induction false} AbsentNext(mem: Memory, d: nat, i: nat, j: nat)
    requires i <= j
    ensures Absent(mem, d, i, j + 1) == Absent(mem, d, i, j) + (if Present(Pde(mem, d, j)) then 0 else 1)
    decreases j - i
  {
    hide Pde;
    if i < j { AbsentNext(mem, d, i + 1, j); }
  }

  /** Mapping the pages from lo on, page a is the first that needs a table that is missing. */
  ghost predicate StartsTable(mem: Memory, d: nat, lo: nat, a: nat) {
    !Present(Pde(mem, d, a / NPTE)) && (a == lo || a % NPTE == 0)
  }

  /** A page takes one frame, or two if it starts a missing table. */
  lemma NeedNext(mem: Memory, d: nat, lo: nat, a: nat)
    requires lo <= a
    ensures Need(mem, d, lo, a + 1) == Need(mem, d, lo, a) + (if StartsTable(mem, d, lo, a) then 2 else 1)
  {
    hide Pde;
    if a == lo {
      AbsentNext(mem, d, lo / NPTE, lo / NPTE);
    } else if a % NPTE == 0 {
      assert (a - 1) / NPTE + 1 == a / NPTE && lo / NPTE <= a / NPTE;
      AbsentNext(mem, d, lo / NPTE, a / NPTE);
    } else {
      assert (a - 1) / NPTE == a / NPTE;
    }
  }

  lemma {:induction false} NeedMore(mem: Memory, d: nat, lo: nat, a: nat, b: nat)
    requires lo <= a <= b
    ensures Need(mem, d, lo, b) >= Need(mem, d, lo, a) + (b - a)
    decreases b - a
  {
    hide Need, StartsTable;
    if a < b {
      NeedMore(mem, d, lo, a, b - 1);
      NeedNext(mem, d, lo, b - 1);
    }
  }

  lemma NeedNone(mem: Memory, d: nat, lo: nat)
    ensures Need(mem, d, lo, lo) == 0
  {
  }

  /** With n free frames, growing from lo to hi gets to page a and no further. */
  ghost predicate StopsAt(mem: Memory, d: nat, lo: nat, a: nat, n: nat) {
    lo <= a && Need(mem, d, lo, a) <= n < Need(mem, d, lo, a + 1)
  }

  /** A frame is taken for a page whose table cannot be had. */
  ghost predicate LosesOne(mem: Memory, d: nat, lo: nat, hi: nat, n: nat) {
    exists a: nat :: lo <= a < hi && StartsTable(mem, d, lo, a) && n == Need(mem, d, lo, a) + 1
  }

  /** It is the last page that finds no table. */
  ghost predicate LastLost(mem: Memory, d: nat, lo: nat, hi: nat, n: nat) {
    lo < hi && StartsTable(mem, d, lo, hi - 1) && n == Need(mem, d, lo, hi) - 1
  }

  /** Where growing stops decides what is lost. */
  lemma StopExactly(mem: Memory, d: nat, lo: nat, hi: nat, a: nat, n: nat)
    requires a < hi && StopsAt(mem, d, lo, a, n)
    ensures n < Need(mem, d, lo, hi)
    ensures LosesOne(mem, d, lo, hi, n) <==> n == Need(mem, d, lo, a) + 1
    ensures LastLost(mem, d, lo, hi, n) <==> n == Need(mem, d, lo, a) + 1 && a == hi - 1
  {
    hide Need, StartsTable;
    NeedNext(mem, d, lo, a);
    NeedMore(mem, d, lo, a + 1, hi);
    NeedNext(mem, d, lo, hi - 1);
    forall b: nat | lo <= b < hi && b != a && StartsTable(mem, d, lo, b) ensures n != Need(mem, d, lo, b) + 1 {
      NeedNext(mem, d, lo, b);
      if b < a { NeedMore(mem, d, lo, b + 1, a); } else { NeedMore(mem, d, lo, a + 1, b); }
    }
  }

  /** The tables are those of mem and those of the pages lo to a. */
  ghost predicate TablesGrown(mem: Memory, mem': Memory, d: nat, lo: nat, a: nat) {
    forall i: nat :: i < NPTE ==>
      (Present(Pde(mem', d, i)) <==> Present(Pde(mem, d, i)) || (lo < a && lo / NPTE <= i <= (a - 1) / NPTE))
  }

  /** Whether the next page finds its table. */
  lemma TableNeeded(mem: Memory, mem': Memory, d: nat, lo: nat, a: nat)
    requires TablesGrown(mem, mem', d, lo, a) && lo <= a < USERPAGES
    ensures !Present(Pde(mem', d, a / NPTE)) <==> StartsTable(mem, d, lo, a)
  {
    hide Pde;
    assert a > lo ==> (a % NPTE == 0 <==> (a - 1) / NPTE < a / NPTE);
  }

  lemma TableGrown(mem0: Memory, mem: Memory, mem': Memory, d: nat, lo: nat, a: nat)
    requires TablesGrown(mem0, mem, d, lo, a) && lo <= a < USERPAGES
    requires Present(Pde(mem', d, a / NPTE)) && forall j: nat :: j != a / NPTE ==> Pde(mem', d, j) == Pde(mem, d, j)
    ensures TablesGrown(mem0, mem', d, lo, a + 1)
  {
    hide Pde;
    assert a > lo ==> (a - 1) / NPTE <= a / NPTE <= (a - 1) / NPTE + 1;
  }

  /** A machine with one free frame, growing an empty image by one page: the frame goes to the page, there is
      none for its table, and allocuvm reports success. */
  lemma LastLostCase() returns (mem: Memory, owner: map<nat, Role>)
    ensures Ok(mem, [2], owner, {}) && IsDir(owner, 1) && (forall v: nat :: Pte(mem, 1, v) == 0)
    ensures LastLost(mem, 1, 0, 1, 1)
  {
    var zero := Filled(0);
    mem := [zero, zero, zero];
    owner := map[1 := Directory];
    assert RoleIs(mem, owner, 1) && DirOk(mem, owner, 1);
    NeedNone(mem, 1, 0);
    NeedNext(mem, 1, 0, 0);
  }

  // ---- a new address space ----

  /** The directory entries that have a table are those in s. */
  ghost predicate Tables(mem: Memory, d: nat, s: set<nat>) {
    forall i: nat :: i < NPTE ==> (Present(Pde(mem, d, i)) <==> i in s)
  }

  lemma TablesAt(mem: Memory, d: nat, s: set<nat>, i: nat)
    requires Tables(mem, d, s) && i < NPTE
    ensures Present(Pde(mem, d, i)) <==> i in s
  {
  }

  lemma TablesMore(mem: Memory, mem': Memory, d: nat, s: set<nat>, i: nat)
    requires Tables(mem, d, s) && Present(Pde(mem', d, i)) &&
      forall j: nat :: j != i ==> Pde(mem', d, j) == Pde(mem, d, j)
    ensures Tables(mem', d, s + {i})
  {
    hide Pde;
  }

  lemma AsSetEmpty()
    ensures AsSet<nat>([]) == {}
  {
  }

  lemma AsSetNext(ks: seq<nat>, k: nat)
    requires k < |ks|
    ensures AsSet(ks[..k + 1]) == AsSet(ks[..k]) + {ks[k]}
    ensures |AsSet(ks[..k + 1])| == |AsSet(ks[..k])| + (if ks[k] in AsSet(ks[..k]) then 0 else 1)
    ensures |AsSet(ks[..k + 1])| <= |AsSet(ks)|
  {
    var now, next, all := AsSet(ks[..k]), AsSet(ks[..k + 1]), AsSet(ks);
    assert ks[..k + 1] == ks[..k] + [ks[k]];
    assert next == now + {ks[k]};
    assert next <= all by {
      forall x | x in ks[..k + 1] ensures x in ks {
      }
    }
    hide AsSet;
    assert ks[k] in now ==> next == now;
    SubsetCount(AsSet(ks[..k + 1]), AsSet(ks));
  }

  /** What it takes to map the first n pages of an address space with no user tables. */
  function CopyNeed(n: nat): nat { n + (n + NPTE - 1) / NPTE }

  /** The frames it takes to copy an image of n pages: a directory, the kernel's tables, the pages, their tables. */
  function ForkNeed(kernel: seq<nat>, n: nat): nat { 1 + |AsSet(kernel)| + CopyNeed(n) }

  lemma {:induction false} AbsentAll(mem: Memory, d: nat, i: nat, j: nat)
    requires i <= j && forall k: nat :: k < j ==> !Present(Pde(mem, d, k))
    ensures Absent(mem, d, i, j) == j - i
    decreases j - i
  {
    hide Pde;
    if i < j { AbsentAll(mem, d, i + 1, j); }
  }

  /** A new address space has no table for any user page. */
  lemma NeedEmpty(mem: Memory, c: nat, kernel: seq<nat>, n: nat)
    requires Tables(mem, c, AsSet(kernel)) && n <= USERPAGES &&
      forall k :: 0 <= k < |kernel| ==> USERPAGES / NPTE <= kernel[k]
    ensures Need(mem, c, 0, n) == CopyNeed(n)
    ensures n < USERPAGES ==> (StartsTable(mem, c, 0, n) <==> n % NPTE == 0)
  {
    hide Pde, Absent;
    if n > 0 {
      var j := (n - 1) / NPTE + 1;
      assert j <= USERPAGES / NPTE && j == (n + NPTE - 1) / NPTE;
      AbsentAll(mem, c, 0, j);
    }
  }

  /** A region's pages and its table take NPTE + 1 frames. */
  lemma WholeRegions(q: nat)
    ensures CopyNeed(NPTE * q) == (NPTE + 1) * q
  {
    assert (NPTE * q + NPTE - 1) / NPTE == q;
  }

  lemma RegionStart(n: nat, left: nat)
    requires left < CopyNeed(n) && left % (NPTE + 1) == 1
    ensures var a := NPTE * (left / (NPTE + 1)); a < n && a % NPTE == 0 && left == CopyNeed(a) + 1
  {
    var q := left / (NPTE + 1);
    WholeRegions(q);
    var tables := (n + NPTE - 1) / NPTE;
    assert n <= NPTE * q ==> tables <= q;
  }

  /** The frame that is lost is the first of a region, whose table would have been the second. */
  lemma CopyLoss(mem: Memory, c: nat, kernel: seq<nat>, n: nat, left: nat)
    requires Tables(mem, c, AsSet(kernel)) && n <= USERPAGES &&
      forall k :: 0 <= k < |kernel| ==> USERPAGES / NPTE <= kernel[k]
    requires left < CopyNeed(n)
    ensures LosesOne(mem, c, 0, n, left) <==> left % (NPTE + 1) == 1
  {
    hide Pde, Need, StartsTable, Tables, AsSet, CopyNeed;
    forall a: nat | a < n && StartsTable(mem, c, 0, a) && left == Need(mem, c, 0, a) + 1
      ensures left % (NPTE + 1) == 1
    {
      NeedEmpty(mem, c, kernel, a);
      WholeRegions(a / NPTE);
      assert a == NPTE * (a / NPTE);
    }
    if left % (NPTE + 1) == 1 {
      var a := NPTE * (left / (NPTE + 1));
      RegionStart(n, left);
      NeedEmpty(mem, c, kernel, a);
      assert StartsTable(mem, c, 0, a) && left == Need(mem, c, 0, a) + 1;
    }
  }
}
