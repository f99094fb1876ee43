/** Directories: arrays of (inode number, 14-byte name) entries, used as maps. */
module Directory {

  const DIRSIZ := 14
  const NUL := '\0'

  /** inum 0 marks a free entry. */
  datatype Dirent = Dirent(inum: nat, name: string)

  /** Character i of a C string held in s. */
  function Ch(s: string, i: nat): char { if i < |s| then s[i] else NUL }

  /** The name a buffer stands for: its characters up to the first NUL, at most DIRSIZ of them. */
  function Key(s: string): (k: string) {
    KeyFrom(s, 0)
  }

  function KeyFrom(s: string, i: nat): string
    decreases DIRSIZ - i
  {
    if i >= DIRSIZ || Ch(s, i) == NUL then [] else [Ch(s, i)] + KeyFrom(s, i + 1)
  }

  /** The name is the longest prefix of at most 14 characters without a NUL. */
  lemma KeyIs(s: string)
    ensures var k := Key(s);
      && |k| <= 14 && k <= s && NUL !in k && (|k| < 14 && |k| < |s| ==> s[|k|] == NUL)
  {
    KeyFromIs(s, 0);
    assert s[0..] == s;
  }

  lemma {:induction false} KeyFromIs(s: string, i: nat)
    requires i <= DIRSIZ && i <= |s|
    ensures var k := KeyFrom(s, i);
      i + |k| <= 14 && k <= s[i..] && NUL !in k && (i + |k| < 14 && i + |k| < |s| ==> s[i + |k|] == NUL)
    decreases DIRSIZ - i
  {
    if i < DIRSIZ && Ch(s, i) != NUL {
      KeyFromIs(s, i + 1);
      assert s[i..] == [s[i]] + s[i + 1..];
    }
  }

  /** namecmp == 0, that is strncmp over DIRSIZ characters */
  method Namecmp(s: string, t: string) returns (same: bool)
    ensures same <==> Key(s) == Key(t)
  {
    var i := 0;
    while i < DIRSIZ && Ch(s, i) != NUL && Ch(s, i) == Ch(t, i)
      invariant 0 <= i <= DIRSIZ
      invariant Key(s) == Key(t) <==> KeyFrom(s, i) == KeyFrom(t, i)
    {
      ConsEqual(Ch(s, i), KeyFrom(s, i + 1), Ch(t, i), KeyFrom(t, i + 1));
      i := i + 1;
    }
    if i < DIRSIZ && Ch(s, i) != NUL && Ch(t, i) != NUL {
      ConsEqual(Ch(s, i), KeyFrom(s, i + 1), Ch(t, i), KeyFrom(t, i + 1));
    }
    same := i == DIRSIZ || Ch(s, i) == Ch(t, i);
  }

  lemma ConsEqual(a: char, s: string, b: char, t: string)
    ensures [a] + s == [b] + t <==> a == b && s == t
  {
    if [a] + s == [b] + t {
      assert ([a] + s)[0] == a && ([b] + t)[0] == b;
      assert ([a] + s)[1..] == s && ([b] + t)[1..] == t;
    }
  }

  /** strncpy into the name field: cut at DIRSIZ, padded with NULs. */
  function Padded(s: string): (r: string)
    ensures |r| == DIRSIZ
  {
    seq(DIRSIZ, i requires 0 <= i < DIRSIZ => if NulBefore(s, i) then NUL else Ch(s, i))
  }

  /** A NUL occurs in s before or at position i. */
  predicate NulBefore(s: string, i: nat) {
    Ch(s, i) == NUL || (i > 0 && NulBefore(s, i - 1))
  }

  lemma {:induction false} PaddedKey(s: string, i: nat)
    requires i <= DIRSIZ && (i > 0 ==> !NulBefore(s, i - 1))
    ensures KeyFrom(Padded(s), i) == KeyFrom(s, i)
    decreases DIRSIZ - i
  {
    if i < DIRSIZ && Ch(s, i) != NUL {
      assert Padded(s)[i] == Ch(s, i);
      PaddedKey(s, i + 1);
    }
  }

  // ---- lookup ----

  ghost predicate Names(e: Dirent, name: string) { e.inum != 0 && Key(e.name) == Key(name) }

  /** No two live entries have the same name. */
  ghost predicate DistinctNames(es: seq<Dirent>) {
    forall i, j :: 0 <= i < |es| && 0 <= j < |es| && es[j].inum != 0 && Names(es[i], es[j].name) ==> i == j
  }

  /** The directory as a map from names to inode numbers. */
  ghost function AsMap(es: seq<Dirent>): map<string, nat>
  {
    if es == [] then map[]
    else
      var rest, e := AsMap(es[..|es| - 1]), es[|es| - 1];
      if e.inum == 0 then rest else rest[Key(e.name) := e.inum]
  }

  lemma {:induction false} AsMapIs(es: seq<Dirent>, key: string)
    requires DistinctNames(es)
    ensures key in AsMap(es) <==> exists i :: 0 <= i < |es| && es[i].inum != 0 && Key(es[i].name) == key
    ensures forall i :: 0 <= i < |es| && es[i].inum != 0 && Key(es[i].name) == key ==> AsMap(es)[key] == es[i].inum
  {
    hide Key;
    if es != [] {
      var s, e := es[..|es| - 1], es[|es| - 1];
      assert DistinctNames(s) by {
        forall i, j | 0 <= i < |s| && 0 <= j < |s| && s[j].inum != 0 && Names(s[i], s[j].name) ensures i == j {
          assert Names(es[i], es[j].name);
        }
      }
      AsMapIs(s, key);
      if e.inum != 0 && Key(e.name) == key {
        forall i | 0 <= i < |es| && es[i].inum != 0 && Key(es[i].name) == key ensures i == |es| - 1 {
          assert Names(es[i], es[|es| - 1].name);
        }
      } else {
        assert forall i :: 0 <= i < |s| ==> es[i] == s[i];
      }
    }
  }

  /** dirlookup's scan: the index of the entry, or |es|. */
  method Dirlookup(es: seq<Dirent>, name: string) returns (k: nat)
    ensures k <= |es| && (forall i :: 0 <= i < k ==> !Names(es[i], name))
    ensures k < |es| ==> Names(es[k], name)
    ensures DistinctNames(es) ==>
      (k < |es| <==> Key(name) in AsMap(es)) && (k < |es| ==> AsMap(es)[Key(name)] == es[k].inum)
  {
    hide Key, AsMap;
    k := 0;
    while k < |es|
      invariant k <= |es| && forall i :: 0 <= i < k ==> !Names(es[i], name)
    {
      if es[k].inum != 0 {
        var same := Namecmp(name, es[k].name);
        if same {
          break;
        }
      }
      k := k + 1;
    }
    if DistinctNames(es) { AsMapIs(es, Key(name)); }
  }

  // ---- changes ----

  /** Where dirlink puts a new entry: the first free one, or past the end. */
  function FreeSlot(es: seq<Dirent>): (k: nat)
    ensures k <= |es| && (k < |es| ==> es[k].inum == 0) && forall i :: 0 <= i < k ==> es[i].inum != 0
  {
    if es == [] then 0 else if es[0].inum == 0 then 0
    else
      var k := FreeSlot(es[1..]);
      assert forall i :: 0 < i < k + 1 ==> es[i] == es[1..][i - 1];
      k + 1
  }

  function Linked(es: seq<Dirent>, name: string, inum: nat): seq<Dirent> {
    var e := Dirent(inum, Padded(name));
    var k := FreeSlot(es);
    if k < |es| then es[k := e] else es + [e]
  }

  /** dirlink; fails when the name is present. */
  method Dirlink(es: seq<Dirent>, name: string, inum: nat) returns (ok: bool, r: seq<Dirent>)
    requires DistinctNames(es) && inum != 0
    ensures ok <==> Key(name) !in AsMap(es)
    ensures r == if ok then Linked(es, name, inum) else es
    ensures DistinctNames(r) && (ok ==> AsMap(r) == AsMap(es)[Key(name) := inum])
    ensures ok ==> var k := FreeSlot(es);
      && |r| == (if k < |es| then |es| else |es| + 1) && r[k].inum == inum && |r[k].name| == 14
      && forall i :: 0 <= i < |es| && i != k ==> r[i] == es[i]
  {
    hide Key, AsMap, DistinctNames, Padded;
    var at := Dirlookup(es, name);
    if at < |es| {
      return false, es;
    }
    var k := 0;
    while k < |es| && es[k].inum != 0
      invariant k <= |es| && forall i :: 0 <= i < k ==> es[i].inum != 0
    {
      k := k + 1;
    }
    assert k == FreeSlot(es);
    LinkedMap(es, name, inum);
    var e := Dirent(inum, Padded(name));
    return true, if k < |es| then es[k := e] else es + [e];
  }

  /** The new entry sits at the free slot; the others have not moved. */
  lemma LinkedAt(es: seq<Dirent>, name: string, inum: nat)
    ensures var r, k := Linked(es, name, inum), FreeSlot(es);
      && k < |r| && r[k] == Dirent(inum, Padded(name)) && Key(r[k].name) == Key(name)
      && (forall i :: 0 <= i < |r| && i != k ==> i < |es| && r[i] == es[i])
      && (forall i :: 0 <= i < |es| && es[i].inum != 0 ==> i != k && i < |r| && r[i] == es[i])
  {
    PaddedKey(name, 0);
  }

  lemma LinkedDistinct(es: seq<Dirent>, name: string, inum: nat)
    requires DistinctNames(es) && inum != 0 && Key(name) !in AsMap(es)
    ensures DistinctNames(Linked(es, name, inum))
  {
    AsMapIs(es, Key(name));
    LinkedAt(es, name, inum);
    hide Key, Linked, FreeSlot, AsMap, Padded;
    var r, k := Linked(es, name, inum), FreeSlot(es);
    forall i, j | 0 <= i < |r| && 0 <= j < |r| && r[j].inum != 0 && Names(r[i], r[j].name) ensures i == j {
      if i != k && j != k { assert Names(es[i], es[j].name); }
    }
  }

  lemma LinkedMap(es: seq<Dirent>, name: string, inum: nat)
    requires DistinctNames(es) && inum != 0 && Key(name) !in AsMap(es)
    ensures DistinctNames(Linked(es, name, inum)) && AsMap(Linked(es, name, inum)) == AsMap(es)[Key(name) := inum]
  {
    LinkedDistinct(es, name, inum);
    LinkedAt(es, name, inum);
    hide Key, Linked, FreeSlot, AsMap, Padded, DistinctNames;
    var r, k := Linked(es, name, inum), FreeSlot(es);
    forall c: string
      ensures c in AsMap(r) <==> c in AsMap(es) || c == Key(name)
      ensures c in AsMap(r) ==> AsMap(r)[c] == AsMap(es)[Key(name) := inum][c]
    {
      AsMapIs(es, c);
      AsMapIs(r, c);
      if i :| 0 <= i < |es| && es[i].inum != 0 && Key(es[i].name) == c { assert r[i] == es[i]; }
    }
  }

  /** sys_unlink's clearing of an entry. */
  function Clear(es: seq<Dirent>, k: nat): seq<Dirent>
    requires k < |es|
  {
    es[k := Dirent(0, seq(DIRSIZ, _ => NUL))]
  }

  lemma ClearMap(es: seq<Dirent>, k: nat)
    requires DistinctNames(es) && k < |es| && es[k].inum != 0
    ensures DistinctNames(Clear(es, k)) && AsMap(Clear(es, k)) == AsMap(es) - {Key(es[k].name)}
  {
    hide Key, AsMap;
    var r := Clear(es, k);
    forall i, j | 0 <= i < |r| && 0 <= j < |r| && r[j].inum != 0 && Names(r[i], r[j].name) ensures i == j {
      assert Names(es[i], es[j].name);
    }
    forall c: string ensures c in AsMap(r) <==> c in AsMap(es) - {Key(es[k].name)} {
      AsMapIs(es, c);
      AsMapIs(r, c);
      forall i | 0 <= i < |es| && es[i].inum != 0 && Key(es[i].name) == c && i != k
        ensures c != Key(es[k].name) && r[i] == es[i]
      {
        assert Names(es[i], es[k].name) == (c == Key(es[k].name));
      }
    }
    forall c | c in AsMap(r) ensures AsMap(r)[c] == AsMap(es)[c] {
      AsMapIs(es, c);
      AsMapIs(r, c);
    }
  }
}
