/** Where "." and ".." lead: over every run a directory's own entries name itself and the directory that names
    it. */
module Parents {
  import opened Directory
  import opened Links

  /** Directory d names itself as ".", and every directory that names d is its "..". */
  ghost predicate DotsRight(ns: Nodes, root: nat, d: nat)
    requires d in ns
  {
    var es := ns[d].es;
    && |es| >= 2 && es[0].inum == d && (d == root ==> es[1].inum == root)
    && forall e: nat, k: nat :: Entry(ns, e, k) == d ==> es[1].inum == e
  }

  ghost predicate Rooted(ns: Nodes, root: nat) {
    forall d :: d in ns && ns[d].kind == Dir ==> DotsRight(ns, root, d)
  }

  /** The first two entries of d are what they were, and so is every entry that names it, unless it is a new
      one. */
  lemma DotsKept(ns: Nodes, ns': Nodes, root: nat, d: nat)
    requires d in ns && d in ns' && DotsRight(ns, root, d) && |ns'[d].es| >= 2
    requires ns'[d].es[0] == ns[d].es[0] && ns'[d].es[1] == ns[d].es[1]
    requires forall e: nat, k: nat :: Entry(ns', e, k) == d ==> Entry(ns, e, k) == d
    ensures DotsRight(ns', root, d)
  {
  }

  lemma RootedCreate(s: State, e: Event, root: nat)
    requires Right(s, root) && Enabled(s, e) && e.Create? && Rooted(s.ns, root)
    ensures Rooted(Step(s, e).ns, root)
  {
    hide DirCount, Refs, Subdirs, Key, AsMap, DistinctNames, Linked, Dots, FreeSlot;
    var ns, dp, inum := s.ns, e.dp, e.inum;
    var ns' := Step(s, e).ns;
    CreateEntry(ns, dp, e.name, inum, e.kind);
    Unnamed(ns, root, s.pending, inum);
    DotsGood(inum, dp);
    LinkedDots(ns[dp].es, e.name, inum);
    hide Entry;
    forall d | d in ns' && ns'[d].kind == Dir ensures DotsRight(ns', root, d) {
      if d != inum {
        assert DotsRight(ns, root, d);
        DotsKept(ns, ns', root, d);
      } else {
        forall x: nat, k: nat | Entry(ns', x, k) == d ensures x == dp {
          assert Entry(ns, x, k) != inum;
        }
      }
    }
  }

  lemma RootedUnlink(s: State, e: Event, root: nat)
    requires Right(s, root) && Enabled(s, e) && e.Unlink? && Rooted(s.ns, root)
    ensures Rooted(Step(s, e).ns, root)
  {
    hide DirCount, GoodDir, Refs, Subdirs, DistinctNames, EmptyDir;
    var ns, ns' := s.ns, Step(s, e).ns;
    var f := Entry(ns, e.dp, e.k);
    UnlinkTarget(ns, root, s.pending, e.dp, e.k);
    ClearedEntry(ns, e.dp, e.k);
    assert forall d :: d in ns' ==> d in ns && ns'[d].kind == ns[d].kind;
    assert forall d :: d in ns' && |ns[d].es| >= 2 ==>
      |ns'[d].es| >= 2 && ns'[d].es[0] == ns[d].es[0] && ns'[d].es[1] == ns[d].es[1];
    hide Entry, Unlinked;
    forall d | d in ns' && ns'[d].kind == Dir ensures DotsRight(ns', root, d) {
      assert d != 0;
      DotsKept(ns, ns', root, d);
    }
  }

  lemma RootedEnter(s: State, e: Event, root: nat)
    requires Right(s, root) && Enabled(s, e) && e.LinkEnter? && Rooted(s.ns, root)
    ensures Rooted(Step(s, e).ns, root)
  {
    hide DirCount, Refs, Subdirs, Key, AsMap, DistinctNames, Linked, FreeSlot;
    var ns, dp := s.ns, e.dp;
    var ns' := Step(s, e).ns;
    SlotPastDots(ns, dp, e.name, e.ip);
    LinkedDots(ns[dp].es, e.name, e.ip);
    hide Entry;
    forall d | d in ns' && ns'[d].kind == Dir ensures DotsRight(ns', root, d) {
      assert DotsRight(ns, root, d) && d != e.ip;
      DotsKept(ns, ns', root, d);
    }
  }

  /** A count changed, or an inode went away. */
  lemma RootedOther(s: State, e: Event, root: nat)
    requires Right(s, root) && Enabled(s, e) && (e.LinkBegin? || e.LinkFail? || e.Free?) && Rooted(s.ns, root)
    ensures Rooted(Step(s, e).ns, root)
  {
    hide DirCount, GoodDir, Refs, Subdirs;
    var ns, ns' := s.ns, Step(s, e).ns;
    forall d | d in ns' && ns'[d].kind == Dir ensures DotsRight(ns', root, d) {
      assert DotsRight(ns, root, d) && d != 0;
      DotsKept(ns, ns', root, d);
    }
  }

  lemma RootedStep(s: State, e: Event, root: nat)
    requires Right(s, root) && Enabled(s, e) && Rooted(s.ns, root)
    ensures Rooted(Step(s, e).ns, root)
  {
    hide Right, Rooted, Step, Enabled;
    match e
    case Create(_, _, _, _) => RootedCreate(s, e, root);
    case Unlink(_, _) => RootedUnlink(s, e, root);
    case LinkEnter(_, _, _) => RootedEnter(s, e, root);
    case _ => RootedOther(s, e, root);
  }

  /** Over every run that enters no name in a removed directory, "." and ".." lead where they should. */
  lemma {:induction false} RootedAlways(s: State, es: seq<Event>, t: State, root: nat)
    requires Right(s, root) && Tidy(s.ns, root) && Rooted(s.ns, root) && ReachesSparing(s, es, t)
    ensures Rooted(t.ns, root)
    decreases |es|
  {
    hide Right, Tidy, Rooted, Step, EntersRemoved, Enabled;
    if es != [] {
      TidyExactly(s, es[0], root);
      RootedStep(s, es[0], root);
      RootedAlways(Step(s, es[0]), es[1..], t, root);
    }
  }

  /** So looking up ".." in a directory leads back to the directory that names it, and "." leads nowhere else. */
  lemma UpIsBack(s: State, root: nat, e: nat, k: nat)
    requires Right(s, root) && Rooted(s.ns, root) && NamesDir(s.ns, Entry(s.ns, e, k))
    ensures var m := AsMap(s.ns[Entry(s.ns, e, k)].es);
      "." in m && ".." in m && m["."] == Entry(s.ns, e, k) && m[".."] == e
  {
    hide DirCount, Refs, Subdirs, Key, AsMap, DistinctNames;
    var d := Entry(s.ns, e, k);
    assert DotsRight(s.ns, root, d) && GoodDir(s.ns, d);
    var es := s.ns[d].es;
    AsMapIs(es, ".");
    AsMapIs(es, "..");
  }
}
