/** Link counts: sys_link, sys_unlink, create and the freeing half of iput, as atomic steps on the
    inodes they lock. sys_link is two steps, since it holds no lock between raising the count and
    adding the entry. */
module Links {
  import opened Directory
  import opened Sets

  datatype Kind = File | Dir

  /** A directory's first two entries are "." and "..". */
  datatype Node = Node(kind: Kind, nlink: int, es: seq<Dirent>)

  type Nodes = map<nat, Node>

  /** What entry k of inode d names, the dots not counted; 0 for nothing. */
  function Entry(ns: Nodes, d: nat, k: nat): nat {
    if d in ns && 2 <= k < |ns[d].es| then ns[d].es[k].inum else 0
  }

  /** The entries naming inode f. */
  ghost function Refs(ns: Nodes, f: nat): set<(nat, nat)> {
    set d, k | d in ns && 0 <= k < |ns[d].es| && Entry(ns, d, k) == f :: (d, k)
  }

  /** The entries of d that name directories: its subdirectories. */
  ghost function Subdirs(ns: Nodes, d: nat): set<nat> {
    set k | 0 <= k < (if d in ns then |ns[d].es| else 0) && NamesDir(ns, Entry(ns, d, k))
  }

  predicate NamesDir(ns: Nodes, f: nat) { f != 0 && f in ns && ns[f].kind == Dir }

  ghost predicate EmptyDir(ns: Nodes, d: nat) {
    forall k :: Entry(ns, d, k) == 0
  }

  ghost predicate GoodDir(ns: Nodes, d: nat)
    requires d in ns
  {
    var es := ns[d].es;
    && |es| >= 2 && es[0].inum != 0 && es[1].inum != 0 && Key(es[0].name) == "." && Key(es[1].name) == ".."
    && DistinctNames(es)
    && forall k :: Entry(ns, d, k) != 0 ==> Entry(ns, d, k) in ns
  }

  /** Every link count is right. pending: links whose count is raised but whose entry is not there yet. */
  ghost predicate Inv(ns: Nodes, root: nat, pending: multiset<nat>) {
    && root in ns && ns[root].kind == Dir && 0 !in ns
    && (forall f :: f in pending ==> f in ns && ns[f].kind == File)
    && (forall f :: f in ns && ns[f].kind == File ==> ns[f].es == [] && ns[f].nlink == |Refs(ns, f)| + pending[f])
    && (forall d :: d in ns && ns[d].kind == Dir ==> GoodDir(ns, d) && DirCount(ns, root, d))
  }

  /** A directory is named by at most one entry, the root by none; its count is that entry (or
      rootness) plus its subdirectories. */
  ghost predicate DirCount(ns: Nodes, root: nat, d: nat)
    requires d in ns
  {
    && |Refs(ns, d)| + (if d == root then 1 else 0) <= 1
    && ns[d].nlink == |Refs(ns, d)| + (if d == root then 1 else 0) + |Subdirs(ns, d)|
  }

  ghost predicate Attached(ns: Nodes, root: nat, d: nat) { d == root || Refs(ns, d) != {} }

  /** A directory that has been removed is empty. */
  ghost predicate Tidy(ns: Nodes, root: nat) {
    forall d :: d in ns && ns[d].kind == Dir && !Attached(ns, root, d) ==> EmptyDir(ns, d)
  }

  // ---- what one changed entry does to the counts ----

  /** Entry k of directory d, which named nothing in ns, names f in ns'; every other entry is the same. */
  ghost predicate EntrySet(ns: Nodes, ns': Nodes, d: nat, k: nat, f: nat) {
    && f != 0 && Entry(ns, d, k) == 0 && Entry(ns', d, k) == f
    && forall e: nat, j: nat :: (e, j) != (d, k) ==> Entry(ns', e, j) == Entry(ns, e, j)
  }

  lemma RefsAre(ns: Nodes, f: nat, d: nat, k: nat)
    requires f != 0
    ensures (d, k) in Refs(ns, f) <==> Entry(ns, d, k) == f
  {
  }

  lemma SetRefs(ns: Nodes, ns': Nodes, d: nat, k: nat, f: nat, x: nat)
    requires EntrySet(ns, ns', d, k, f) && x != 0
    ensures Refs(ns', x) == if x == f then Refs(ns, x) + {(d, k)} else Refs(ns, x)
    ensures |Refs(ns', x)| == |Refs(ns, x)| + (if x == f then 1 else 0)
  {
    forall p: (nat, nat) ensures p in Refs(ns', x) <==> p in Refs(ns, x) || (x == f && p == (d, k)) {
      RefsAre(ns, x, p.0, p.1);
      RefsAre(ns', x, p.0, p.1);
    }
    RefsAre(ns, x, d, k);
  }

  lemma SetSubdirs(ns: Nodes, ns': Nodes, d: nat, k: nat, f: nat, e: nat)
    requires EntrySet(ns, ns', d, k, f)
    requires forall j :: NamesDir(ns', Entry(ns, e, j)) == NamesDir(ns, Entry(ns, e, j))
    ensures |Subdirs(ns', e)| == |Subdirs(ns, e)| + (if e == d && NamesDir(ns', f) then 1 else 0)
  {
    if e == d && NamesDir(ns', f) {
      assert Subdirs(ns', e) == Subdirs(ns, e) + {k};
      assert k !in Subdirs(ns, e);
    } else {
      assert Subdirs(ns', e) == Subdirs(ns, e);
    }
  }

  /** Nothing but counts changed. */
  lemma SameEntries(ns: Nodes, ns': Nodes, x: nat)
    requires forall e, j :: Entry(ns', e, j) == Entry(ns, e, j)
    requires forall f :: NamesDir(ns', f) == NamesDir(ns, f)
    ensures x != 0 ==> Refs(ns', x) == Refs(ns, x)
    ensures Subdirs(ns', x) == Subdirs(ns, x)
  {
    if x != 0 {
      forall p: (nat, nat) ensures p in Refs(ns', x) <==> p in Refs(ns, x) {
        RefsAre(ns, x, p.0, p.1);
        RefsAre(ns', x, p.0, p.1);
      }
    }
  }

  // ---- the steps ----

  /** The entries of a new directory. */
  function Dots(inum: nat, parent: nat): seq<Dirent> {
    Linked(Linked([], ".", inum), "..", parent)
  }

  /** create, once the name is known to be absent and inum is a free inode. */
  function Created(ns: Nodes, dp: nat, name: string, inum: nat, kind: Kind): Nodes
    requires dp in ns
  {
    var up := if kind == Dir then 1 else 0;
    ns[inum := Node(kind, 1, if kind == Dir then Dots(inum, dp) else [])]
      [dp := ns[dp].(nlink := ns[dp].nlink + up, es := Linked(ns[dp].es, name, inum))]
  }

  /** sys_unlink of entry k of dp. */
  function Unlinked(ns: Nodes, dp: nat, k: nat): Nodes
    requires dp in ns && k < |ns[dp].es| && Entry(ns, dp, k) in ns
  {
    var ip := Entry(ns, dp, k);
    var down := if ns[ip].kind == Dir then 1 else 0;
    var ns1 := ns[dp := ns[dp].(nlink := ns[dp].nlink - down, es := Clear(ns[dp].es, k))];
    ns1[ip := ns1[ip].(nlink := ns1[ip].nlink - 1)]
  }

  function Counted(ns: Nodes, ip: nat, delta: int): Nodes
    requires ip in ns
  {
    ns[ip := ns[ip].(nlink := ns[ip].nlink + delta)]
  }

  function Entered(ns: Nodes, dp: nat, name: string, ip: nat): Nodes
    requires dp in ns
  {
    ns[dp := ns[dp].(es := Linked(ns[dp].es, name, ip))]
  }

  /** The slot dirlink uses is never a dot. */
  lemma SlotPastDots(ns: Nodes, dp: nat, name: string, f: nat)
    requires dp in ns && GoodDir(ns, dp) && f != 0
    ensures 2 <= FreeSlot(ns[dp].es) <= |ns[dp].es|
    ensures EntrySet(ns, Entered(ns, dp, name, f), dp, FreeSlot(ns[dp].es), f)
  {
    LinkedAt(ns[dp].es, name, f);
  }

  lemma LinkedDots(es: seq<Dirent>, name: string, f: nat)
    requires |es| >= 2 && es[0].inum != 0 && es[1].inum != 0
    ensures |Linked(es, name, f)| >= 2 && Linked(es, name, f)[0] == es[0] && Linked(es, name, f)[1] == es[1]
  {
    LinkedAt(es, name, f);
  }

  /** Unlinking an entry is setting it, read backwards. */
  lemma ClearedEntry(ns: Nodes, dp: nat, k: nat)
    requires dp in ns && 2 <= k < |ns[dp].es| && Entry(ns, dp, k) in ns && Entry(ns, dp, k) != 0
    ensures EntrySet(Unlinked(ns, dp, k), ns, dp, k, Entry(ns, dp, k))
  {
  }

  lemma DotsGood(inum: nat, parent: nat)
    requires inum != 0 && parent != 0
    ensures var es := Dots(inum, parent);
      |es| == 2 && es[0].inum == inum && es[1].inum == parent && Key(es[0].name) == "." && Key(es[1].name) == ".." &&
        DistinctNames(es)
  {
    PaddedKey(".", 0);
    PaddedKey("..", 0);
    assert Key(".") == "." && Key("..") == ".." by { DotKeys(); }
  }

  lemma DotKeys()
    ensures Key(".") == "." && Key("..") == ".."
  {
    assert KeyFrom(".", 1) == [] && KeyFrom("..", 2) == [];
  }

  // ---- every step keeps the counts ----

  /** A directory whose entries did not change is as well-formed as it was. */
  lemma GoodKept(ns: Nodes, ns': Nodes, d: nat)
    requires d in ns && GoodDir(ns, d) && d in ns' && ns'[d].es == ns[d].es && ns.Keys <= ns'.Keys
    ensures GoodDir(ns', d)
  {
    hide Key, DistinctNames;
    forall k ensures Entry(ns', d, k) == Entry(ns, d, k) {
    }
  }

  /** dirlink keeps a directory well-formed. */
  lemma GoodLinked(ns: Nodes, ns': Nodes, dp: nat, name: string, f: nat)
    requires dp in ns && GoodDir(ns, dp) && f != 0 && f in ns' && ns.Keys <= ns'.Keys && Key(name) !in AsMap(ns[dp].es)
    requires dp in ns' && ns'[dp].es == Linked(ns[dp].es, name, f)
    ensures GoodDir(ns', dp)
  {
    LinkedDistinct(ns[dp].es, name, f);
    LinkedDots(ns[dp].es, name, f);
    LinkedAt(ns[dp].es, name, f);
    hide Key, DistinctNames, Linked, AsMap, FreeSlot;
    forall k | Entry(ns', dp, k) != 0 ensures Entry(ns', dp, k) in ns' {
      assert Entry(ns', dp, k) == f || Entry(ns', dp, k) == Entry(ns, dp, k);
    }
  }

  /** One entry added: the count of each file and directory, given its new link count. */
  lemma CountSet(ns: Nodes, ns': Nodes, root: nat, d: nat, k: nat, f: nat, x: nat)
    requires EntrySet(ns, ns', d, k, f) && x in ns && x in ns' && x != 0 && DirCount(ns, root, x)
    requires forall j :: NamesDir(ns', Entry(ns, x, j)) == NamesDir(ns, Entry(ns, x, j))
    requires NamesDir(ns', f) ==> x != f
    requires x == f ==> x != root && Refs(ns, x) == {}
    requires ns'[x].nlink == ns[x].nlink + (if x == d && NamesDir(ns', f) then 1 else 0) + (if x == f then 1 else 0)
    ensures DirCount(ns', root, x)
  {
    SetRefs(ns, ns', d, k, f, x);
    SetSubdirs(ns, ns', d, k, f, x);
  }

  /** In a tidy file system a directory is removed exactly when its count is zero. */
  lemma LinkedParent(ns: Nodes, root: nat, pending: multiset<nat>, dp: nat)
    requires Inv(ns, root, pending) && Tidy(ns, root) && dp in ns && ns[dp].kind == Dir
    ensures Attached(ns, root, dp) <==> ns[dp].nlink >= 1
  {
    hide GoodDir;
    assert DirCount(ns, root, dp);
    assert EmptyDir(ns, dp) ==> Subdirs(ns, dp) == {};
  }

  /** A name entered in a directory leaves the file system tidy exactly when the directory is not removed. */
  lemma TidySet(ns: Nodes, ns': Nodes, root: nat, dp: nat, k: nat, f: nat)
    requires Tidy(ns, root) && EntrySet(ns, ns', dp, k, f) && f != dp && dp in ns' && ns'[dp].kind == Dir
    requires forall x :: x in ns' && ns'[x].kind == Dir && x != f ==> x in ns && ns[x].kind == Dir && x != 0
    ensures Tidy(ns', root) <==> Attached(ns, root, dp)
  {
    hide Refs, Entry;
    SetRefs(ns, ns', dp, k, f, dp);
    SetRefs(ns, ns', dp, k, f, f);
    assert Entry(ns', dp, k) != 0;
    forall x | x in ns' && ns'[x].kind == Dir && x != dp && !Attached(ns', root, x) ensures EmptyDir(ns', x) {
      if x != f {
        SetRefs(ns, ns', dp, k, f, x);
        forall j: nat ensures Entry(ns', x, j) == 0 {
          assert Entry(ns', x, j) == Entry(ns, x, j);
        }
      }
    }
  }

  lemma CreateEntry(ns: Nodes, dp: nat, name: string, inum: nat, kind: Kind)
    requires dp in ns && GoodDir(ns, dp) && inum !in ns && inum != 0 && dp != 0
    ensures EntrySet(ns, Created(ns, dp, name, inum, kind), dp, FreeSlot(ns[dp].es), inum)
    ensures EmptyDir(Created(ns, dp, name, inum, kind), inum)
  {
    var ns', ns1 := Created(ns, dp, name, inum, kind), Entered(ns, dp, name, inum);
    SlotPastDots(ns, dp, name, inum);
    DotsGood(inum, dp);
    hide Key, AsMap, DistinctNames, Dots, Linked;
    forall e: nat, j: nat ensures Entry(ns', e, j) == Entry(ns1, e, j) {
    }
    hide Entry, FreeSlot;
  }

  /** Nothing names a free inode. */
  lemma Unnamed(ns: Nodes, root: nat, pending: multiset<nat>, inum: nat)
    requires Inv(ns, root, pending) && inum !in ns && inum != 0
    ensures Refs(ns, inum) == {} && forall d: nat, j: nat :: Entry(ns, d, j) != inum
  {
    hide DirCount, Key, DistinctNames;
    forall d: nat, j: nat ensures Entry(ns, d, j) != inum {
      if d in ns && ns[d].kind == Dir { assert GoodDir(ns, d); }
    }
  }

  ghost predicate Creatable(ns: Nodes, root: nat, pending: multiset<nat>, dp: nat, name: string, inum: nat) {
    && Inv(ns, root, pending) && dp in ns && ns[dp].kind == Dir
    && Key(name) !in AsMap(ns[dp].es) && inum !in ns && inum != 0
  }

  lemma CreateFile(ns: Nodes, root: nat, pending: multiset<nat>, dp: nat, name: string, inum: nat, kind: Kind, f: nat)
    requires Creatable(ns, root, pending, dp, name, inum)
    ensures var ns' := Created(ns, dp, name, inum, kind);
      && (f == inum ==> |Refs(ns', f)| == 1)
      && (f in ns' && ns'[f].kind == File ==> ns'[f].es == [] && ns'[f].nlink == |Refs(ns', f)| + pending[f])
  {
    hide Key, AsMap, Linked, DistinctNames, DirCount, EntrySet, Refs, GoodDir;
    CreateEntry(ns, dp, name, inum, kind);
    Unnamed(ns, root, pending, inum);
    if f != 0 { SetRefs(ns, Created(ns, dp, name, inum, kind), dp, FreeSlot(ns[dp].es), inum, f); }
  }

  /** The new inode is no entry's target yet. */
  lemma CreateNames(ns: Nodes, root: nat, pending: multiset<nat>, dp: nat, name: string, inum: nat, kind: Kind, d: nat)
    requires Creatable(ns, root, pending, dp, name, inum)
    ensures var ns' := Created(ns, dp, name, inum, kind);
      forall j :: NamesDir(ns', Entry(ns, d, j)) == NamesDir(ns, Entry(ns, d, j))
  {
    hide Key, AsMap, Linked, DistinctNames, DirCount, Refs, GoodDir, Dots, Inv;
    Unnamed(ns, root, pending, inum);
    hide Entry;
  }

  lemma CreateOld(ns: Nodes, root: nat, pending: multiset<nat>, dp: nat, name: string, inum: nat, kind: Kind, d: nat)
    requires Creatable(ns, root, pending, dp, name, inum) && d in ns && ns[d].kind == Dir
    ensures var ns' := Created(ns, dp, name, inum, kind); d in ns' && GoodDir(ns', d) && DirCount(ns', root, d)
  {
    var ns', k := Created(ns, dp, name, inum, kind), FreeSlot(ns[dp].es);
    CreateNames(ns, root, pending, dp, name, inum, kind, d);
    hide Key, AsMap, Linked, DistinctNames, DirCount, EntrySet, Refs, GoodDir, Dots, EmptyDir, Entry, FreeSlot;
    CreateEntry(ns, dp, name, inum, kind);
    CountSet(ns, ns', root, dp, k, inum, d);
    if d != dp { GoodKept(ns, ns', d); } else { GoodLinked(ns, ns', dp, name, inum); }
  }

  lemma CreateDir(ns: Nodes, root: nat, pending: multiset<nat>, dp: nat, name: string, inum: nat, kind: Kind, d: nat)
    requires Creatable(ns, root, pending, dp, name, inum)
    requires d in Created(ns, dp, name, inum, kind) && Created(ns, dp, name, inum, kind)[d].kind == Dir
    ensures GoodDir(Created(ns, dp, name, inum, kind), d) && DirCount(Created(ns, dp, name, inum, kind), root, d)
  {
    var ns' := Created(ns, dp, name, inum, kind);
    hide Key, AsMap, Linked, DistinctNames, DirCount, EntrySet, Refs, GoodDir, Dots, EmptyDir, Entry, FreeSlot;
    if d == inum {
      CreateEntry(ns, dp, name, inum, kind);
      CreateFile(ns, root, pending, dp, name, inum, kind, d);
      FreshDir(ns', root, d);
      FreshGood(ns', d, dp);
    } else {
      CreateOld(ns, root, pending, dp, name, inum, kind, d);
    }
  }

  /** create keeps every count right, in a removed directory too. */
  lemma InvCreate(ns: Nodes, root: nat, pending: multiset<nat>, dp: nat, name: string, inum: nat, kind: Kind)
    requires Creatable(ns, root, pending, dp, name, inum)
    ensures Inv(Created(ns, dp, name, inum, kind), root, pending)
  {
    hide Key, AsMap, Linked, DistinctNames, DirCount, EntrySet, Refs, GoodDir, Dots, FreeSlot;
    var ns' := Created(ns, dp, name, inum, kind);
    forall f | f in ns' && ns'[f].kind == File
      ensures ns'[f].es == [] && ns'[f].nlink == |Refs(ns', f)| + pending[f]
    {
      CreateFile(ns, root, pending, dp, name, inum, kind, f);
    }
    forall d | d in ns' && ns'[d].kind == Dir ensures GoodDir(ns', d) && DirCount(ns', root, d) {
      CreateDir(ns, root, pending, dp, name, inum, kind, d);
    }
  }

  /** But only in a directory whose count is not zero does it leave removed directories empty. */
  lemma TidyCreate(ns: Nodes, root: nat, pending: multiset<nat>, dp: nat, name: string, inum: nat, kind: Kind)
    requires Creatable(ns, root, pending, dp, name, inum) && Tidy(ns, root)
    ensures Tidy(Created(ns, dp, name, inum, kind), root) <==> ns[dp].nlink >= 1
  {
    hide Key, AsMap, Linked, DistinctNames, DirCount, EntrySet, Refs, GoodDir, Dots, FreeSlot, Tidy;
    CreateEntry(ns, dp, name, inum, kind);
    LinkedParent(ns, root, pending, dp);
    TidySet(ns, Created(ns, dp, name, inum, kind), root, dp, FreeSlot(ns[dp].es), inum);
  }

  lemma FreshGood(ns: Nodes, d: nat, dp: nat)
    requires d in ns && ns[d].es == Dots(d, dp) && d != 0 && dp != 0
    ensures GoodDir(ns, d)
  {
    DotsGood(d, dp);
  }

  lemma FreshDir(ns: Nodes, root: nat, d: nat)
    requires d in ns && d != root && ns[d].nlink == 1 && |Refs(ns, d)| == 1 && EmptyDir(ns, d)
    ensures DirCount(ns, root, d)
  {
    assert Subdirs(ns, d) == {};
  }

  // ---- unlink ----

  ghost predicate Unlinkable(ns: Nodes, root: nat, pending: multiset<nat>, dp: nat, k: nat) {
    && Inv(ns, root, pending) && dp in ns && ns[dp].kind == Dir && 2 <= k < |ns[dp].es| && Entry(ns, dp, k) != 0
    && Entry(ns, dp, k) in ns && (ns[Entry(ns, dp, k)].kind == Dir ==> EmptyDir(ns, Entry(ns, dp, k)))
  }

  /** The directory that holds the entry is not the target, and the target's count is positive. */
  lemma UnlinkTarget(ns: Nodes, root: nat, pending: multiset<nat>, dp: nat, k: nat)
    requires Unlinkable(ns, root, pending, dp, k)
    ensures var f := Entry(ns, dp, k);
      && f != dp && f != root && (dp, k) in Refs(ns, f) && ns[f].nlink >= 1
      && (ns[f].kind == Dir ==> Refs(ns, f) == {(dp, k)} && ns[f].nlink == 1)
  {
    hide GoodDir;
    var f := Entry(ns, dp, k);
    RefsAre(ns, f, dp, k);
    assert DirCount(ns, root, dp) && DirCount(ns, root, root);
    assert !EmptyDir(ns, dp);
    assert Refs(ns, f) == {(dp, k)} + (Refs(ns, f) - {(dp, k)});
    if ns[f].kind == Dir {
      assert DirCount(ns, root, f);
      assert Refs(ns, f) - {(dp, k)} == {};
      assert Subdirs(ns, f) == {};
    }
  }

  lemma UnlinkFile(ns: Nodes, root: nat, pending: multiset<nat>, dp: nat, k: nat, f: nat)
    requires Unlinkable(ns, root, pending, dp, k) && f in ns && ns[f].kind == File
    ensures var ns' := Unlinked(ns, dp, k);
      f in ns' && ns'[f].kind == File && ns'[f].es == [] && ns'[f].nlink == |Refs(ns', f)| + pending[f]
  {
    hide GoodDir, DirCount, Refs;
    UnlinkTarget(ns, root, pending, dp, k);
    ClearedEntry(ns, dp, k);
    SetRefs(Unlinked(ns, dp, k), ns, dp, k, Entry(ns, dp, k), f);
  }

  lemma UnlinkedNodes(ns: Nodes, dp: nat, k: nat, x: nat)
    requires dp in ns && 2 <= k < |ns[dp].es| && Entry(ns, dp, k) in ns && Entry(ns, dp, k) != dp && x in ns
    ensures var ns', f := Unlinked(ns, dp, k), Entry(ns, dp, k);
      && ns'.Keys == ns.Keys && ns'[x].kind == ns[x].kind
      && ns'[x].nlink == ns[x].nlink - (if x == dp && ns[f].kind == Dir then 1 else 0) - (if x == f then 1 else 0)
      && (forall y :: NamesDir(ns', y) == NamesDir(ns, y))
      && (x != dp ==> forall j :: Entry(ns', x, j) == Entry(ns, x, j))
  {
  }

  /** One entry cleared: CountSet read backwards. */
  lemma CountClear(ns: Nodes, ns': Nodes, root: nat, d: nat, k: nat, f: nat, x: nat)
    requires EntrySet(ns', ns, d, k, f) && x in ns && x in ns' && x != 0 && DirCount(ns, root, x)
    requires forall y :: NamesDir(ns', y) == NamesDir(ns, y)
    requires ns'[x].nlink == ns[x].nlink - (if x == d && NamesDir(ns, f) then 1 else 0) - (if x == f then 1 else 0)
    requires x == f ==> x != d
    ensures DirCount(ns', root, x)
  {
    hide Refs, Subdirs, NamesDir, Entry;
    SetRefs(ns', ns, d, k, f, x);
    SetSubdirs(ns', ns, d, k, f, x);
  }

  lemma UnlinkDir(ns: Nodes, root: nat, pending: multiset<nat>, dp: nat, k: nat, d: nat)
    requires Unlinkable(ns, root, pending, dp, k) && d in ns && ns[d].kind == Dir
    ensures var ns' := Unlinked(ns, dp, k); d in ns' && ns'[d].kind == Dir && DirCount(ns', root, d)
  {
    hide GoodDir, Refs, Subdirs, Unlinked, Entry, EntrySet, DirCount;
    UnlinkTarget(ns, root, pending, dp, k);
    ClearedEntry(ns, dp, k);
    UnlinkedNodes(ns, dp, k, d);
    CountClear(ns, Unlinked(ns, dp, k), root, dp, k, Entry(ns, dp, k), d);
  }

  lemma UnlinkGood(ns: Nodes, root: nat, pending: multiset<nat>, dp: nat, k: nat, d: nat)
    requires Unlinkable(ns, root, pending, dp, k) && d in ns && ns[d].kind == Dir
    ensures d in Unlinked(ns, dp, k) && GoodDir(Unlinked(ns, dp, k), d)
  {
    hide DirCount, Key, Refs;
    var ns' := Unlinked(ns, dp, k);
    UnlinkTarget(ns, root, pending, dp, k);
    assert GoodDir(ns, d) && ns'.Keys == ns.Keys;
    if d == dp { ClearDistinct(ns[dp].es, k); }
    forall j | Entry(ns', d, j) != 0 ensures Entry(ns', d, j) in ns' {
      assert Entry(ns', d, j) == Entry(ns, d, j);
    }
  }

  lemma ClearDistinct(es: seq<Dirent>, k: nat)
    requires DistinctNames(es) && k < |es| && es[k].inum != 0
    ensures DistinctNames(Clear(es, k))
  {
    ClearMap(es, k);
  }

  lemma InvUnlink(ns: Nodes, root: nat, pending: multiset<nat>, dp: nat, k: nat)
    requires Unlinkable(ns, root, pending, dp, k)
    ensures Inv(Unlinked(ns, dp, k), root, pending)
  {
    hide DirCount, Refs, GoodDir, Entry, EmptyDir, Unlinked;
    var ns' := Unlinked(ns, dp, k);
    UnlinkTarget(ns, root, pending, dp, k);
    forall x | x in ns ensures ns'.Keys == ns.Keys && ns'[x].kind == ns[x].kind {
      UnlinkedNodes(ns, dp, k, x);
    }
    forall f | f in ns' && ns'[f].kind == File ensures ns'[f].es == [] && ns'[f].nlink == |Refs(ns', f)| + pending[f] {
      UnlinkFile(ns, root, pending, dp, k, f);
    }
    forall d | d in ns' && ns'[d].kind == Dir ensures GoodDir(ns', d) && DirCount(ns', root, d) {
      UnlinkDir(ns, root, pending, dp, k, d);
      UnlinkGood(ns, root, pending, dp, k, d);
    }
  }

  /** unlink removes empty directories only. */
  lemma TidyUnlink(ns: Nodes, root: nat, pending: multiset<nat>, dp: nat, k: nat)
    requires Unlinkable(ns, root, pending, dp, k) && Tidy(ns, root)
    ensures Tidy(Unlinked(ns, dp, k), root)
  {
    hide GoodDir, Refs, Unlinked, DirCount, Entry;
    var ns', f := Unlinked(ns, dp, k), Entry(ns, dp, k);
    UnlinkTarget(ns, root, pending, dp, k);
    ClearedEntry(ns, dp, k);
    forall d | d in ns' && ns'[d].kind == Dir && !Attached(ns', root, d) ensures EmptyDir(ns', d) {
      UnlinkedNodes(ns, dp, k, f);
      UnlinkedNodes(ns, dp, k, d);
      SetRefs(ns', ns, dp, k, f, d);
      assert !EmptyDir(ns, dp);
    }
  }

  // ---- link ----

  /** Raising or lowering a file's count together with its pending links. */
  lemma InvCounted(ns: Nodes, root: nat, pending: multiset<nat>, pending': multiset<nat>, ip: nat, delta: int)
    requires Inv(ns, root, pending) && ip in ns && ns[ip].kind == File && pending[ip] + delta >= 0
    requires pending' == pending[ip := pending[ip] + delta]
    ensures Inv(Counted(ns, ip, delta), root, pending')
  {
    hide Key, DistinctNames, Refs, Subdirs;
    var ns' := Counted(ns, ip, delta);
    forall e: nat, j: nat ensures Entry(ns', e, j) == Entry(ns, e, j) {
    }
    forall x ensures NamesDir(ns', x) == NamesDir(ns, x) {
    }
    forall d | d in ns' ensures Refs(ns', d) == Refs(ns, d) && Subdirs(ns', d) == Subdirs(ns, d) {
      SameEntries(ns, ns', d);
    }
    forall d | d in ns' && ns'[d].kind == Dir ensures GoodDir(ns', d) && DirCount(ns', root, d) {
      assert GoodDir(ns, d) && DirCount(ns, root, d);
      GoodKept(ns, ns', d);
    }
  }

  ghost predicate Enterable(ns: Nodes, root: nat, pending: multiset<nat>, dp: nat, name: string, ip: nat) {
    && Inv(ns, root, pending) && dp in ns && ns[dp].kind == Dir
    && Key(name) !in AsMap(ns[dp].es) && ip in pending
  }

  lemma EnterDir(ns: Nodes, root: nat, pending: multiset<nat>, dp: nat, name: string, ip: nat, d: nat)
    requires Enterable(ns, root, pending, dp, name, ip) && d in ns && ns[d].kind == Dir
    ensures var ns' := Entered(ns, dp, name, ip); d in ns' && GoodDir(ns', d) && DirCount(ns', root, d)
  {
    var ns', k := Entered(ns, dp, name, ip), FreeSlot(ns[dp].es);
    hide Key, AsMap, Linked, DistinctNames, DirCount, EntrySet, Refs, GoodDir;
    SlotPastDots(ns, dp, name, ip);
    forall x ensures NamesDir(ns', x) == NamesDir(ns, x) {
    }
    CountSet(ns, ns', root, dp, k, ip, d);
    if d != dp { GoodKept(ns, ns', d); } else { GoodLinked(ns, ns', dp, name, ip); }
  }

  lemma EnterFile(ns: Nodes, root: nat, pending: multiset<nat>, dp: nat, name: string, ip: nat, f: nat)
    requires Enterable(ns, root, pending, dp, name, ip) && f in ns && ns[f].kind == File
    ensures var ns' := Entered(ns, dp, name, ip);
      f in ns' && ns'[f] == ns[f] && ns'[f].nlink == |Refs(ns', f)| + (pending - multiset{ip})[f]
  {
    hide Key, AsMap, Linked, DistinctNames, DirCount, EntrySet, Refs, GoodDir;
    SlotPastDots(ns, dp, name, ip);
    SetRefs(ns, Entered(ns, dp, name, ip), dp, FreeSlot(ns[dp].es), ip, f);
  }

  /** Entering a pending link settles it, in a removed directory too. */
  lemma InvEntered(ns: Nodes, root: nat, pending: multiset<nat>, dp: nat, name: string, ip: nat)
    requires Enterable(ns, root, pending, dp, name, ip)
    ensures Inv(Entered(ns, dp, name, ip), root, pending - multiset{ip})
  {
    hide Key, AsMap, Linked, DirCount, Refs, GoodDir, EntrySet;
    var ns' := Entered(ns, dp, name, ip);
    forall f | f in ns' && ns'[f].kind == File
      ensures ns'[f].es == [] && ns'[f].nlink == |Refs(ns', f)| + (pending - multiset{ip})[f]
    {
      EnterFile(ns, root, pending, dp, name, ip, f);
    }
    forall d | d in ns' && ns'[d].kind == Dir ensures GoodDir(ns', d) && DirCount(ns', root, d) {
      EnterDir(ns, root, pending, dp, name, ip, d);
    }
  }

  lemma TidyEntered(ns: Nodes, root: nat, pending: multiset<nat>, dp: nat, name: string, ip: nat)
    requires Enterable(ns, root, pending, dp, name, ip) && Tidy(ns, root)
    ensures Tidy(Entered(ns, dp, name, ip), root) <==> ns[dp].nlink >= 1
  {
    hide Key, AsMap, Linked, DirCount, Refs, GoodDir, EntrySet, FreeSlot, Tidy;
    SlotPastDots(ns, dp, name, ip);
    LinkedParent(ns, root, pending, dp);
    TidySet(ns, Entered(ns, dp, name, ip), root, dp, FreeSlot(ns[dp].es), ip);
  }

  lemma TidyCounted(ns: Nodes, root: nat, ip: nat, delta: int)
    requires Tidy(ns, root) && 0 !in ns && ip in ns && ns[ip].kind == File
    ensures Tidy(Counted(ns, ip, delta), root)
  {
    hide Refs, Subdirs;
    var ns' := Counted(ns, ip, delta);
    forall e: nat, j: nat ensures Entry(ns', e, j) == Entry(ns, e, j) {
    }
    forall d | d in ns' && ns'[d].kind == Dir && !Attached(ns', root, d) ensures EmptyDir(ns', d) {
      SameEntries(ns, ns', d);
    }
  }

  // ---- iput ----

  /** An inode whose count is zero is named by nothing, and names no directory. */
  lemma ZeroUnnamed(ns: Nodes, root: nat, pending: multiset<nat>, ip: nat)
    requires Inv(ns, root, pending) && ip in ns && ns[ip].nlink == 0
    ensures ip != root && ip !in pending && Refs(ns, ip) == {} && Subdirs(ns, ip) == {}
    ensures ns[ip].kind == File ==> EmptyDir(ns, ip)
    ensures forall e: nat, j: nat :: Entry(ns, e, j) != ip
  {
    hide Key, DistinctNames, GoodDir;
    if ns[ip].kind == Dir { assert DirCount(ns, root, ip); }
    assert ip != 0;
    hide Refs;
    forall e: nat, j: nat ensures Entry(ns, e, j) != ip {
      RefsAre(ns, ip, e, j);
    }
  }

  /** Freeing an empty inode with no links leaves every other count right. */
  lemma FreeEmpty(ns: Nodes, root: nat, pending: multiset<nat>, ip: nat)
    requires Inv(ns, root, pending) && ip in ns && ns[ip].nlink == 0 && EmptyDir(ns, ip)
    ensures Inv(ns - {ip}, root, pending)
  {
    hide Key, DistinctNames, Refs, Subdirs;
    var ns' := ns - {ip};
    ZeroUnnamed(ns, root, pending, ip);
    forall e: nat, j: nat ensures Entry(ns', e, j) == Entry(ns, e, j) {
    }
    forall d | d in ns' ensures Refs(ns', d) == Refs(ns, d) && Subdirs(ns', d) == Subdirs(ns, d) {
      FreedEntries(ns, ip, d);
    }
    forall d | d in ns' && ns'[d].kind == Dir ensures GoodDir(ns', d) && DirCount(ns', root, d) {
      assert GoodDir(ns, d) && DirCount(ns, root, d);
    }
  }

  lemma FreedEntries(ns: Nodes, ip: nat, x: nat)
    requires forall e: nat, j: nat :: Entry(ns - {ip}, e, j) == Entry(ns, e, j) != ip
    ensures x != 0 ==> Refs(ns - {ip}, x) == Refs(ns, x)
    ensures x != ip ==> Subdirs(ns - {ip}, x) == Subdirs(ns, x)
  {
    if x != 0 {
      forall p: (nat, nat) ensures p in Refs(ns - {ip}, x) <==> p in Refs(ns, x) {
        RefsAre(ns, x, p.0, p.1);
        RefsAre(ns - {ip}, x, p.0, p.1);
      }
    }
  }

  /** A directory with no links names files only, and each loses the links it has there. */
  lemma FreeNames(ns: Nodes, root: nat, pending: multiset<nat>, ip: nat, k: nat)
    requires Inv(ns, root, pending) && ip in ns && ns[ip].nlink == 0 && Entry(ns, ip, k) != 0
    ensures var f, ns' := Entry(ns, ip, k), ns - {ip};
      f in ns' && ns'[f] == ns[f] && ns[f].kind == File && ns'[f].nlink > |Refs(ns', f)| + pending[f]
  {
    hide Key, DistinctNames, Refs;
    var f, ns' := Entry(ns, ip, k), ns - {ip};
    ZeroUnnamed(ns, root, pending, ip);
    assert GoodDir(ns, ip);
    assert k !in Subdirs(ns, ip);
    forall p: (nat, nat) | p in Refs(ns', f) ensures p in Refs(ns, f) - {(ip, k)} {
      RefsAre(ns, f, p.0, p.1);
      RefsAre(ns', f, p.0, p.1);
    }
    RefsAre(ns, f, ip, k);
    SubsetCount(Refs(ns', f), Refs(ns, f) - {(ip, k)});
  }

  /** Freeing an inode with no links keeps the counts right exactly when it is empty: when it is a directory
      with an entry, the file named there is left with a count above its names. */
  lemma InvFree(ns: Nodes, root: nat, pending: multiset<nat>, ip: nat)
    requires Inv(ns, root, pending) && ip in ns && ns[ip].nlink == 0
    ensures Inv(ns - {ip}, root, pending) <==> EmptyDir(ns, ip)
  {
    hide DirCount, GoodDir, Refs, Entry;
    if EmptyDir(ns, ip) {
      FreeEmpty(ns, root, pending, ip);
    } else {
      var k :| Entry(ns, ip, k) != 0;
      FreeNames(ns, root, pending, ip, k);
    }
  }

  lemma TidyFree(ns: Nodes, root: nat, pending: multiset<nat>, ip: nat)
    requires Inv(ns, root, pending) && Tidy(ns, root) && ip in ns && ns[ip].nlink == 0
    ensures EmptyDir(ns, ip) && Tidy(ns - {ip}, root)
  {
    hide DirCount, GoodDir, Refs, Subdirs;
    var ns' := ns - {ip};
    ZeroUnnamed(ns, root, pending, ip);
    forall e: nat, j: nat ensures Entry(ns', e, j) == Entry(ns, e, j) {
    }
    forall d | d in ns' && ns'[d].kind == Dir && !Attached(ns', root, d) ensures EmptyDir(ns', d) {
      FreedEntries(ns, ip, d);
    }
  }

  // ---- runs ----

  datatype State = State(ns: Nodes, pending: multiset<nat>)

  /** inum: what ialloc returned; k: the entry that dirlookup found. */
  datatype Event =
    | Create(dp: nat, name: string, inum: nat, kind: Kind)
    | Unlink(dp: nat, k: nat)
    | LinkBegin(ip: nat)
    | LinkEnter(dp: nat, name: string, ip: nat)
    | LinkFail(ip: nat)
    | Free(ip: nat)

  ghost predicate NewName(s: State, dp: nat, name: string) {
    dp in s.ns && s.ns[dp].kind == Dir && Key(name) !in AsMap(s.ns[dp].es)
  }

  ghost predicate Enabled(s: State, e: Event) {
    match e
    case Create(dp, name, inum, _) => NewName(s, dp, name) && inum !in s.ns && inum != 0
    case Unlink(dp, k) =>
      var f := Entry(s.ns, dp, k);
      dp in s.ns && s.ns[dp].kind == Dir && f in s.ns && f != 0 && (s.ns[f].kind == Dir ==> EmptyDir(s.ns, f))
    case LinkBegin(ip) => ip in s.ns && s.ns[ip].kind == File
    case LinkEnter(dp, name, ip) => NewName(s, dp, name) && ip in s.pending
    case LinkFail(ip) => ip in s.pending && ip in s.ns
    case Free(ip) => ip in s.ns && s.ns[ip].nlink == 0
  }

  ghost function Step(s: State, e: Event): State
    requires Enabled(s, e)
  {
    match e
    case Create(dp, name, inum, kind) => s.(ns := Created(s.ns, dp, name, inum, kind))
    case Unlink(dp, k) => s.(ns := Unlinked(s.ns, dp, k))
    case LinkBegin(ip) => State(Counted(s.ns, ip, 1), s.pending + multiset{ip})
    case LinkEnter(dp, name, ip) => State(Entered(s.ns, dp, name, ip), s.pending - multiset{ip})
    case LinkFail(ip) => State(Counted(s.ns, ip, -1), s.pending - multiset{ip})
    case Free(ip) => s.(ns := s.ns - {ip})
  }

  ghost predicate Right(s: State, root: nat) { Inv(s.ns, root, s.pending) }

  /** The step frees a directory that still has an entry. */
  ghost predicate FreesNames(s: State, e: Event) { e.Free? && !EmptyDir(s.ns, e.ip) }

  /** The step enters a name in a directory whose count is zero. */
  ghost predicate EntersRemoved(s: State, e: Event) {
    (e.Create? || e.LinkEnter?) && e.dp in s.ns && s.ns[e.dp].nlink < 1
  }

  /** Each step keeps every link count right, but for the freeing of a directory that has an entry, which
      never does. */
  lemma StepExactly(s: State, e: Event, root: nat)
    requires Right(s, root) && Enabled(s, e)
    ensures Right(Step(s, e), root) <==> !FreesNames(s, e)
  {
    hide DirCount, GoodDir, Refs, EmptyDir, Key, AsMap, Created, Unlinked, Entered, DistinctNames;
    match e
    case Create(dp, name, inum, kind) => InvCreate(s.ns, root, s.pending, dp, name, inum, kind);
    case Unlink(dp, k) => InvUnlink(s.ns, root, s.pending, dp, k);
    case LinkBegin(ip) => InvCounted(s.ns, root, s.pending, s.pending + multiset{ip}, ip, 1);
    case LinkEnter(dp, name, ip) => InvEntered(s.ns, root, s.pending, dp, name, ip);
    case LinkFail(ip) => InvCounted(s.ns, root, s.pending, s.pending - multiset{ip}, ip, -1);
    case Free(ip) => InvFree(s.ns, root, s.pending, ip);
  }

  /** While removed directories are empty no step goes wrong, and each step leaves them empty but for one that
      enters a name in a directory whose count is zero, which never does. */
  lemma TidyExactly(s: State, e: Event, root: nat)
    requires Right(s, root) && Tidy(s.ns, root) && Enabled(s, e)
    ensures Right(Step(s, e), root) && (Tidy(Step(s, e).ns, root) <==> !EntersRemoved(s, e))
  {
    hide DirCount, GoodDir, Refs, EmptyDir, Key, AsMap, Created, Unlinked, Entered, DistinctNames, Tidy;
    StepExactly(s, e, root);
    match e
    case Create(dp, name, inum, kind) => TidyCreate(s.ns, root, s.pending, dp, name, inum, kind);
    case Unlink(dp, k) => TidyUnlink(s.ns, root, s.pending, dp, k);
    case LinkBegin(ip) => TidyCounted(s.ns, root, ip, 1);
    case LinkEnter(dp, name, ip) => TidyEntered(s.ns, root, s.pending, dp, name, ip);
    case LinkFail(ip) => TidyCounted(s.ns, root, ip, -1);
    case Free(ip) => TidyFree(s.ns, root, s.pending, ip);
  }

  ghost predicate Reaches(s: State, es: seq<Event>, t: State)
    decreases |es|
  {
    if es == [] then t == s else Enabled(s, es[0]) && Reaches(Step(s, es[0]), es[1..], t)
  }

  /** A run in which nobody enters a name in a removed directory. */
  ghost predicate ReachesSparing(s: State, es: seq<Event>, t: State)
    decreases |es|
  {
    if es == [] then t == s
    else Enabled(s, es[0]) && !EntersRemoved(s, es[0]) && ReachesSparing(Step(s, es[0]), es[1..], t)
  }

  /** Over every such run every link count stays right. */
  lemma {:induction false} RightAlways(s: State, es: seq<Event>, t: State, root: nat)
    requires Right(s, root) && Tidy(s.ns, root) && ReachesSparing(s, es, t)
    ensures Right(t, root) && Tidy(t.ns, root)
    decreases |es|
  {
    hide Right, Tidy, Step, EntersRemoved, Enabled;
    if es != [] {
      TidyExactly(s, es[0], root);
      RightAlways(Step(s, es[0]), es[1..], t, root);
    }
  }

  lemma {:induction false} ReachesConcat(s: State, es: seq<Event>, t: State, fs: seq<Event>, u: State)
    requires Reaches(s, es, t) && Reaches(t, fs, u)
    ensures Reaches(s, es + fs, u)
    decreases |es|
  {
    hide Enabled, Step;
    if es == [] {
      assert es + fs == fs;
    } else {
      ReachesConcat(Step(s, es[0]), es[1..], t, fs, u);
      assert (es + fs)[1..] == es[1..] + fs;
    }
  }

  lemma ReachesStep(s: State, e: Event, es: seq<Event>, t: State)
    requires Enabled(s, e) && Reaches(Step(s, e), es, t)
    ensures Reaches(s, [e] + es, t)
  {
    hide Enabled, Step;
    assert ([e] + es)[1..] == es;
  }

  lemma OneStep(s: State, e: Event)
    requires Enabled(s, e)
    ensures Reaches(s, [e], Step(s, e))
  {
    hide Enabled, Step;
    assert [e] + [] == [e];
    ReachesStep(s, e, [], Step(s, e));
  }

  // ---- the runs after which a count is wrong ----

  /** What create did: the entry, the new inode, and the count of the directory. */
  lemma CreatedIs(s: State, root: nat, e: Event)
    requires Right(s, root) && Enabled(s, e) && e.Create?
    ensures var ns', k := Step(s, e).ns, FreeSlot(s.ns[e.dp].es);
      && EntrySet(s.ns, ns', e.dp, k, e.inum) && EmptyDir(ns', e.inum) && e.inum != e.dp
      && ns'.Keys == s.ns.Keys + {e.inum} && ns'[e.inum].kind == e.kind && ns'[e.inum].nlink == 1
      && ns'[e.dp].kind == Dir && ns'[e.dp].nlink == s.ns[e.dp].nlink + (if e.kind == Dir then 1 else 0)
      && forall x :: x in s.ns && x != e.dp ==> ns'[x] == s.ns[x]
  {
    hide Key, AsMap, Linked, DistinctNames, DirCount, Refs, EntrySet, Dots;
    assert GoodDir(s.ns, e.dp);
    CreateEntry(s.ns, e.dp, e.name, e.inum, e.kind);
  }

  /** A directory made and removed again is still there for whoever has it open. */
  lemma RemovedReachable(s: State, root: nat, dp: nat, name: string, d: nat) returns (es: seq<Event>, t: State)
    requires Right(s, root) && Tidy(s.ns, root) && Enabled(s, Create(dp, name, d, Dir)) && s.ns[dp].nlink >= 1
    ensures Reaches(s, es, t) && Right(t, root) && Tidy(t.ns, root)
    ensures d in t.ns && t.ns[d] == Node(Dir, 0, Dots(d, dp)) && t.ns.Keys == s.ns.Keys + {d}
  {
    hide Right, Tidy, EntrySet, AsMap, Key, FreeSlot, Dots, Linked, EmptyDir;
    var e, k := Create(dp, name, d, Dir), FreeSlot(s.ns[dp].es);
    var s1 := Step(s, e);
    CreatedIs(s, root, e);
    TidyExactly(s, e, root);
    EntryIs(s.ns, s1.ns, dp, k, d);
    var f := Unlink(dp, k);
    t := Step(s1, f);
    TidyExactly(s1, f, root);
    OneStep(s1, f);
    ReachesStep(s, e, [f], t);
    es := [e] + [f];
  }

  lemma EntryIs(ns: Nodes, ns': Nodes, d: nat, k: nat, f: nat)
    requires EntrySet(ns, ns', d, k, f)
    ensures Entry(ns', d, k) == f && f != 0 && d in ns' && 2 <= k < |ns'[d].es| && ns'[d].es[k].inum == f
  {
  }

  /** A file created in a directory whose count is zero has a count of one and no name once that is freed. */
  lemma RemovedFile(s: State, root: nat, dp: nat, name: string, f: nat) returns (t: State)
    requires Right(s, root) && Enabled(s, Create(dp, name, f, File)) && s.ns[dp].nlink == 0
    ensures Reaches(s, [Create(dp, name, f, File), Free(dp)], t) && !Right(t, root)
    ensures f in t.ns && t.ns[f].nlink == 1 && Refs(t.ns, f) == {}
  {
    hide EntrySet, AsMap, Key, FreeSlot, Dots, Linked, EmptyDir, Refs, GoodDir, DirCount;
    var e, k := Create(dp, name, f, File), FreeSlot(s.ns[dp].es);
    var s1 := Step(s, e);
    CreatedIs(s, root, e);
    StepExactly(s, e, root);
    EntryIs(s.ns, s1.ns, dp, k, f);
    t := Step(s1, Free(dp));
    FreeNames(s1.ns, root, s1.pending, dp, k);
    OneStep(s1, Free(dp));
    ReachesStep(s, e, [Free(dp)], t);
    assert [e, Free(dp)] == [e] + [Free(dp)];
  }

  /** A directory created there holds its parent, whose count it raises, until it is unlinked itself; a file
      created beside it then has a count of one and no name once the parent is freed. */
  lemma RemovedDir(s: State, root: nat, dp: nat, name: string, d: nat, name2: string, f: nat)
      returns (k: nat, t: State)
    requires Right(s, root) && Enabled(s, Create(dp, name, d, Dir)) && s.ns[dp].nlink == 0
    requires Enabled(s, Create(dp, name2, f, File)) && d != f && Key(name) != Key(name2)
    ensures Reaches(s, [Create(dp, name, d, Dir), Create(dp, name2, f, File), Unlink(dp, k), Free(dp)], t)
    ensures !Right(t, root) && f in t.ns && t.ns[f].nlink == 1 && Refs(t.ns, f) == {}
  {
    hide EntrySet, AsMap, Key, FreeSlot, Dots, Linked, EmptyDir, Refs, GoodDir, DirCount, Right;
    var e1, e2 := Create(dp, name, d, Dir), Create(dp, name2, f, File);
    k := FreeSlot(s.ns[dp].es);
    var s1 := Step(s, e1);
    CreatedIs(s, root, e1);
    StepExactly(s, e1, root);
    NameStays(s, root, e1, name2);
    EntryIs(s.ns, s1.ns, dp, k, d);
    var s2, k2 := Step(s1, e2), FreeSlot(s1.ns[dp].es);
    CreatedIs(s1, root, e2);
    StepExactly(s1, e2, root);
    EntryIs(s1.ns, s2.ns, dp, k2, f);
    OtherEntry(s1.ns, s2.ns, dp, k2, f, d, k);
    var e3 := Unlink(dp, k);
    var s3 := Step(s2, e3);
    StepExactly(s2, e3, root);
    UnlinkedOther(s2.ns, dp, k, k2);
    t := Step(s3, Free(dp));
    RightIs(s3, root);
    FreeNames(s3.ns, root, s3.pending, dp, k2);
    RightIs(t, root);
    OneStep(s3, Free(dp));
    ReachesStep(s2, e3, [Free(dp)], t);
    ReachesStep(s1, e2, [e3] + [Free(dp)], t);
    ReachesStep(s, e1, [e2] + ([e3] + [Free(dp)]), t);
    assert [e1, e2, e3, Free(dp)] == [e1] + ([e2] + ([e3] + [Free(dp)]));
  }

  lemma RightIs(s: State, root: nat)
    ensures Right(s, root) <==> Inv(s.ns, root, s.pending)
    ensures Right(s, root) ==>
      forall f :: f in s.ns && s.ns[f].kind == File ==> s.ns[f].nlink == |Refs(s.ns, f)| + s.pending[f]
  {
  }

  /** Another name is still new after create. */
  lemma NameStays(s: State, root: nat, e: Event, name: string)
    requires Right(s, root) && Enabled(s, e) && e.Create? && NewName(s, e.dp, name) && Key(name) != Key(e.name)
    ensures NewName(Step(s, e), e.dp, name)
  {
    hide Key, AsMap, Linked, DistinctNames, DirCount, Refs;
    assert GoodDir(s.ns, e.dp);
    LinkedMap(s.ns[e.dp].es, e.name, e.inum);
  }

  /** A second entry leaves the first alone, and the directory it names empty. */
  lemma OtherEntry(ns: Nodes, ns': Nodes, dp: nat, k2: nat, f: nat, d: nat, k: nat)
    requires EntrySet(ns, ns', dp, k2, f) && Entry(ns, dp, k) == d != 0 && d != dp && EmptyDir(ns, d)
    ensures k != k2 && Entry(ns', dp, k) == d && EmptyDir(ns', d)
  {
    forall j ensures Entry(ns', d, j) == 0 {
      assert j >= 0 ==> Entry(ns', d, j) == Entry(ns, d, j);
    }
  }

  lemma UnlinkedOther(ns: Nodes, dp: nat, k: nat, k2: nat)
    requires dp in ns && 2 <= k < |ns[dp].es| && Entry(ns, dp, k) in ns && Entry(ns, dp, k) != dp && k2 != k
    ensures Entry(Unlinked(ns, dp, k), dp, k2) == Entry(ns, dp, k2)
  {
  }

  /** A file linked there has a count above its names once the directory is freed, by one if nothing else
      was entered. */
  lemma RemovedLink(s: State, root: nat, dp: nat, name: string, ip: nat) returns (t: State)
    requires Right(s, root) && Enabled(s, LinkEnter(dp, name, ip)) && s.ns[dp].nlink == 0
    ensures Reaches(s, [LinkEnter(dp, name, ip), Free(dp)], t) && !Right(t, root)
    ensures ip in t.ns && t.ns[ip].nlink > |Refs(t.ns, ip)| + t.pending[ip]
    ensures EmptyDir(s.ns, dp) ==> t.ns[ip].nlink == |Refs(t.ns, ip)| + t.pending[ip] + 1
  {
    hide EntrySet, AsMap, Key, FreeSlot, Linked, EmptyDir, Refs, DirCount;
    var e, k := LinkEnter(dp, name, ip), FreeSlot(s.ns[dp].es);
    assert GoodDir(s.ns, dp);
    var s1 := Step(s, e);
    SlotPastDots(s.ns, dp, name, ip);
    StepExactly(s, e, root);
    EntryIs(s.ns, s1.ns, dp, k, ip);
    t := Step(s1, Free(dp));
    FreeNames(s1.ns, root, s1.pending, dp, k);
    if EmptyDir(s.ns, dp) { WithoutDir(s.ns, s1.ns, dp, k, ip, ip); }
    OneStep(s1, Free(dp));
    ReachesStep(s, e, [Free(dp)], t);
    assert [e, Free(dp)] == [e] + [Free(dp)];
  }

  /** Freeing a directory takes its one entry with it. */
  lemma WithoutDir(ns: Nodes, ns1: Nodes, dp: nat, k: nat, f: nat, x: nat)
    requires EntrySet(ns, ns1, dp, k, f) && EmptyDir(ns, dp) && x != 0
    ensures Refs(ns1 - {dp}, x) == Refs(ns, x)
  {
    forall e: nat, j: nat ensures Entry(ns1 - {dp}, e, j) == Entry(ns, e, j) {
      assert e != dp ==> Entry(ns1 - {dp}, e, j) == Entry(ns1, e, j);
    }
    forall p: (nat, nat) ensures p in Refs(ns1 - {dp}, x) <==> p in Refs(ns, x) {
      RefsAre(ns, x, p.0, p.1);
      RefsAre(ns1 - {dp}, x, p.0, p.1);
    }
  }

  /** So from every file system with right counts and a linked directory a run of mkdir, rmdir, create and the
      last close leads to a wrong count. */
  lemma WrongCount(s: State, root: nat, dp: nat, name: string, d: nat, f: nat) returns (es: seq<Event>, t: State)
    requires Right(s, root) && Tidy(s.ns, root) && Enabled(s, Create(dp, name, d, Dir)) && s.ns[dp].nlink >= 1
    requires f !in s.ns && f != 0 && f != d
    ensures Reaches(s, es, t) && !Right(t, root)
  {
    assert d != 0 && dp != 0;
    hide Right, Tidy, Refs, Dots, Key, AsMap, Enabled, Step;
    var es1, s1 := RemovedReachable(s, root, dp, name, d);
    DotsFree(s1, d, dp, f);
    t := RemovedFile(s1, root, d, "a", f);
    es := es1 + [Create(d, "a", f, File), Free(d)];
    ReachesConcat(s, es1, s1, [Create(d, "a", f, File), Free(d)], t);
  }

  lemma DotsFree(s: State, d: nat, dp: nat, f: nat)
    requires d in s.ns && s.ns[d].kind == Dir && s.ns[d].es == Dots(d, dp) && f !in s.ns && f != 0 && d != 0 && dp != 0
    ensures Enabled(s, Create(d, "a", f, File))
  {
    hide AsMap;
    DotsGood(d, dp);
    assert KeyFrom("a", 1) == [];
    assert Key("a") == "a";
    AsMapIs(Dots(d, dp), "a");
  }

  class Namespace {
    const root: nat
    var nodes: Nodes
    ghost var pending: multiset<nat>

    ghost predicate Valid()
      reads this
    {
      Inv(nodes, root, pending)
    }

    ghost predicate RemovedEmpty()
      reads this
    {
      Tidy(nodes, root)
    }

    constructor (image: Nodes, r: nat)
      requires Inv(image, r, multiset{})
      ensures Valid() && nodes == image && root == r && pending == multiset{}
    {
      root, nodes, pending := r, image, multiset{};
    }

    /** isdirempty */
    method IsDirEmpty(d: nat) returns (empty: bool)
      requires d in nodes
      ensures empty == EmptyDir(nodes, d)
    {
      var k := 2;
      while k < |nodes[d].es|
        invariant forall j :: 0 <= j < k ==> Entry(nodes, d, j) == 0
      {
        if nodes[d].es[k].inum != 0 {
          assert Entry(nodes, d, k) != 0;
          return false;
        }
        k := k + 1;
      }
      return true;
    }

    /** create; inum is what ialloc would return. */
    method Create(dp: nat, name: string, kind: Kind, inum: nat) returns (r: nat)
      requires Valid() && dp in nodes && nodes[dp].kind == Dir
      requires inum !in nodes && inum != 0
      modifies this`nodes
      ensures Valid()
      ensures old(RemovedEmpty()) ==>
        (RemovedEmpty() <==> Key(name) in AsMap(old(nodes)[dp].es) || old(nodes)[dp].nlink >= 1)
      ensures var ns, m := old(nodes), AsMap(old(nodes)[dp].es);
        if Key(name) in m
        then var ip := m[Key(name)];
          nodes == ns && r == if kind == File && ip in ns && ns[ip].kind == File then ip else 0
        else nodes == Created(ns, dp, name, inum, kind) && r == inum && CreatedAt(ns, nodes, dp, name, inum, kind)
    {
      hide Inv, Tidy, Key, AsMap, Linked, Dots, DistinctNames, FreeSlot;
      DirFacts(nodes, root, pending, dp);
      var k := Dirlookup(nodes[dp].es, name);
      if k < |nodes[dp].es| {
        var ip := nodes[dp].es[k].inum;
        if kind == File && ip in nodes && nodes[ip].kind == File {
          return ip;
        }
        return 0;
      }
      InvCreate(nodes, root, pending, dp, name, inum, kind);
      if RemovedEmpty() { TidyCreate(nodes, root, pending, dp, name, inum, kind); }
      var up := if kind == Dir then 1 else 0;
      nodes := nodes[inum := Node(kind, 1, if kind == Dir then Dots(inum, dp) else [])];
      nodes := nodes[dp := nodes[dp].(nlink := nodes[dp].nlink + up)];
      var ok, es := Dirlink(nodes[dp].es, name, inum);
      nodes := nodes[dp := nodes[dp].(es := es)];
      assert nodes == Created(old(nodes), dp, name, inum, kind);
      CreatedFields(old(nodes), dp, name, inum, kind);
      return inum;
    }

    /** sys_unlink, the parent found; k is the entry cleared. */
    method Unlink(dp: nat, name: string) returns (ok: bool, ghost k: nat)
      requires Valid() && dp in nodes && nodes[dp].kind == Dir
      modifies this`nodes
      ensures Valid() && (old(RemovedEmpty()) ==> RemovedEmpty())
      ensures !ok ==> nodes == old(nodes)
      ensures var ns, m := old(nodes), AsMap(old(nodes)[dp].es);
        && (ok <==> Key(name) != "." && Key(name) != ".." && Key(name) in m
                    && (NamesDir(ns, m[Key(name)]) ==> EmptyDir(ns, m[Key(name)])))
        && (ok ==>
            k < |ns[dp].es| && Names(ns[dp].es[k], name) && Entry(ns, dp, k) in ns && nodes == Unlinked(ns, dp, k)
            && UnlinkedAt(ns, nodes, dp, name, Entry(ns, dp, k)) && m[Key(name)] == Entry(ns, dp, k))
    {
      hide Inv, Tidy, Key, AsMap, DistinctNames, EmptyDir;
      DotKeys();
      DirFacts(nodes, root, pending, dp);
      k := 0;
      var dot := Namecmp(name, ".");
      var dotdot := Namecmp(name, "..");
      if dot || dotdot {
        return false, k;
      }
      var at := Dirlookup(nodes[dp].es, name);
      if at == |nodes[dp].es| {
        return false, k;
      }
      var ip := nodes[dp].es[at].inum;
      PastDots(nodes, root, pending, dp, at, name);
      if nodes[ip].kind == Dir {
        var empty := IsDirEmpty(ip);
        if !empty {
          return false, k;
        }
      }
      UnlinkTarget(nodes, root, pending, dp, at);
      InvUnlink(nodes, root, pending, dp, at);
      if RemovedEmpty() { TidyUnlink(nodes, root, pending, dp, at); }
      ghost var ns := nodes;
      var down := if nodes[ip].kind == Dir then 1 else 0;
      nodes := nodes[dp := nodes[dp].(es := Clear(nodes[dp].es, at))];
      nodes := nodes[dp := nodes[dp].(nlink := nodes[dp].nlink - down)];
      nodes := nodes[ip := nodes[ip].(nlink := nodes[ip].nlink - 1)];
      assert nodes == Unlinked(ns, dp, at);
      UnlinkedFields(ns, dp, at, name);
      return true, at;
    }

    /** sys_link, first half: raise the count. */
    method LinkBegin(ip: nat) returns (ok: bool)
      requires Valid() && ip in nodes
      modifies this
      ensures Valid() && (old(RemovedEmpty()) ==> RemovedEmpty()) && ok == (old(nodes)[ip].kind != Dir)
      ensures nodes == if ok then Counted(old(nodes), ip, 1) else old(nodes)
      ensures pending == if ok then old(pending) + multiset{ip} else old(pending)
      ensures ok ==> nodes == old(nodes)[ip := old(nodes)[ip].(nlink := old(nodes)[ip].nlink + 1)]
    {
      hide Inv, Tidy;
      if nodes[ip].kind == Dir {
        return false;
      }
      InvCounted(nodes, root, pending, pending + multiset{ip}, ip, 1);
      if RemovedEmpty() { NoZero(nodes, root, pending); TidyCounted(nodes, root, ip, 1); }
      nodes := nodes[ip := nodes[ip].(nlink := nodes[ip].nlink + 1)];
      pending := pending + multiset{ip};
      return true;
    }

    /** sys_link, second half: add the entry, or undo the raise. dp 0: no such parent. */
    method LinkEnd(ip: nat, dp: nat, name: string) returns (ok: bool)
      requires Valid() && ip in pending
      requires dp != 0 ==> dp in nodes && nodes[dp].kind == Dir
      modifies this
      ensures pending == old(pending) - multiset{ip} && ip in old(nodes)
      ensures ok <==> dp != 0 && Key(name) !in AsMap(old(nodes)[dp].es)
      ensures nodes == if ok then Entered(old(nodes), dp, name, ip) else Counted(old(nodes), ip, -1)
      ensures !ok ==> nodes == old(nodes)[ip := old(nodes)[ip].(nlink := old(nodes)[ip].nlink - 1)]
      ensures ok ==> dp in nodes && nodes == old(nodes)[dp := old(nodes)[dp].(es := nodes[dp].es)]
      ensures ok ==> AsMap(nodes[dp].es) == AsMap(old(nodes)[dp].es)[Key(name) := ip]
      ensures Valid() && (old(RemovedEmpty()) ==> (RemovedEmpty() <==> !ok || old(nodes)[dp].nlink >= 1))
    {
      hide Inv, Tidy, Key, AsMap, Linked, DistinctNames, FreeSlot;
      PendingFacts(nodes, root, pending, ip);
      ok := false;
      if dp != 0 {
        DirFacts(nodes, root, pending, dp);
        var es;
        ok, es := Dirlink(nodes[dp].es, name, ip);
        if ok {
          InvEntered(nodes, root, pending, dp, name, ip);
          if RemovedEmpty() { TidyEntered(nodes, root, pending, dp, name, ip); }
          nodes := nodes[dp := nodes[dp].(es := es)];
          pending := pending - multiset{ip};
        }
      }
      if !ok {
        LinkUndone(ip);
      }
    }

    /** sys_link's way out: lower the count again. */
    method LinkUndone(ip: nat)
      requires Valid() && ip in pending
      modifies this
      ensures Valid() && (old(RemovedEmpty()) ==> RemovedEmpty()) && ip in old(nodes)
      ensures nodes == Counted(old(nodes), ip, -1) && pending == old(pending) - multiset{ip}
    {
      hide Inv, Tidy;
      PendingFacts(nodes, root, pending, ip);
      InvCounted(nodes, root, pending, pending - multiset{ip}, ip, -1);
      if RemovedEmpty() { NoZero(nodes, root, pending); TidyCounted(nodes, root, ip, -1); }
      nodes := nodes[ip := nodes[ip].(nlink := nodes[ip].nlink - 1)];
      pending := pending - multiset{ip};
    }

    /** iput of the last reference to an inode with no links. The counts stay right exactly when it is empty,
        which it is if removed directories are. */
    method FreeInode(ip: nat)
      requires Valid() && ip in nodes && nodes[ip].nlink == 0
      modifies this`nodes
      ensures nodes == old(nodes) - {ip} && (Valid() <==> old(EmptyDir(nodes, ip)))
      ensures old(RemovedEmpty()) ==> Valid() && RemovedEmpty()
    {
      hide Inv, Tidy, EmptyDir;
      InvFree(nodes, root, pending, ip);
      if RemovedEmpty() { TidyFree(nodes, root, pending, ip); }
      nodes := nodes - {ip};
    }
  }

  /** create, field by field: the new inode, the directory's count and names, and nothing else. */
  ghost predicate CreatedAt(ns: Nodes, ns': Nodes, dp: nat, name: string, inum: nat, kind: Kind)
    requires dp in ns
  {
    && ns'.Keys == ns.Keys + {inum} && (forall x :: x in ns && x != dp ==> ns'[x] == ns[x])
    && ns'[inum].kind == kind && ns'[inum].nlink == 1
    && (var es := ns'[inum].es;
        if kind == File then es == []
        else
          && |es| == 2 && es[0].inum == inum && Key(es[0].name) == "."
          && es[1].inum == dp && Key(es[1].name) == "..")
    && ns'[dp].kind == ns[dp].kind && ns'[dp].nlink == ns[dp].nlink + (if kind == Dir then 1 else 0)
    && AsMap(ns'[dp].es) == AsMap(ns[dp].es)[Key(name) := inum]
  }

  lemma CreatedFields(ns: Nodes, dp: nat, name: string, inum: nat, kind: Kind)
    requires dp in ns && dp != 0 && inum !in ns && inum != 0
    requires DistinctNames(ns[dp].es) && Key(name) !in AsMap(ns[dp].es)
    ensures CreatedAt(ns, Created(ns, dp, name, inum, kind), dp, name, inum, kind)
  {
    hide Key, AsMap, Linked, Dots, DistinctNames;
    DotsGood(inum, dp);
    LinkedMap(ns[dp].es, name, inum);
  }

  /** sys_unlink, field by field: f's count, the directory's count and names, and nothing else. */
  ghost predicate UnlinkedAt(ns: Nodes, ns': Nodes, dp: nat, name: string, f: nat)
    requires dp in ns && f in ns
  {
    && ns'.Keys == ns.Keys && f != dp && (forall x :: x in ns && x != dp && x != f ==> ns'[x] == ns[x])
    && ns'[f] == ns[f].(nlink := ns[f].nlink - 1)
    && ns'[dp].kind == ns[dp].kind && ns'[dp].nlink == ns[dp].nlink - (if ns[f].kind == Dir then 1 else 0)
    && AsMap(ns'[dp].es) == AsMap(ns[dp].es) - {Key(name)}
  }

  lemma UnlinkedFields(ns: Nodes, dp: nat, k: nat, name: string)
    requires dp in ns && 2 <= k < |ns[dp].es| && Entry(ns, dp, k) in ns && Entry(ns, dp, k) != dp
    requires DistinctNames(ns[dp].es) && Names(ns[dp].es[k], name)
    ensures UnlinkedAt(ns, Unlinked(ns, dp, k), dp, name, Entry(ns, dp, k))
    ensures Key(name) in AsMap(ns[dp].es) && AsMap(ns[dp].es)[Key(name)] == Entry(ns, dp, k)
  {
    hide Key, AsMap, DistinctNames;
    AsMapIs(ns[dp].es, Key(name));
    ClearMap(ns[dp].es, k);
  }

  lemma NoZero(ns: Nodes, root: nat, pending: multiset<nat>)
    requires Inv(ns, root, pending)
    ensures 0 !in ns
  {
  }

  lemma DirFacts(ns: Nodes, root: nat, pending: multiset<nat>, dp: nat)
    requires Inv(ns, root, pending) && dp in ns && ns[dp].kind == Dir
    ensures dp != 0 && DistinctNames(ns[dp].es)
  {
    assert GoodDir(ns, dp);
  }

  lemma PendingFacts(ns: Nodes, root: nat, pending: multiset<nat>, ip: nat)
    requires Inv(ns, root, pending) && ip in pending
    ensures ip in ns && ns[ip].kind == File && ip != 0
  {
  }

  /** A name other than the dots is found past them. */
  lemma PastDots(ns: Nodes, root: nat, pending: multiset<nat>, dp: nat, k: nat, name: string)
    requires Inv(ns, root, pending) && dp in ns && ns[dp].kind == Dir && k < |ns[dp].es| && Names(ns[dp].es[k], name)
    requires Key(name) != "." && Key(name) != ".."
    ensures k >= 2 && Entry(ns, dp, k) == ns[dp].es[k].inum && Entry(ns, dp, k) in ns
  {
    hide KeyFrom, DirCount, Refs;
    assert GoodDir(ns, dp);
  }
}
