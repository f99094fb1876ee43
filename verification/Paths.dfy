/** Path names: skipelem, namex, namei and nameiparent. */
module Paths {
  import opened Directory

  // ---- what a path means ----

  /** The path cut at every slash, empty pieces included. */
  function Pieces(path: string): (r: seq<string>)
    ensures |r| > 0
  {
    if path == [] then [[]]
    else
      var r := Pieces(path[1..]);
      if path[0] == '/' then [[]] + r else [[path[0]] + r[0]] + r[1..]
  }

  function Truncated(s: string): string { if |s| > DIRSIZ then s[..DIRSIZ] else s }

  function Keep(ps: seq<string>): seq<string> {
    if ps == [] then [] else (if ps[0] == [] then [] else [Truncated(ps[0])]) + Keep(ps[1..])
  }

  /** The elements of a path: its nonempty pieces, each cut to DIRSIZ characters. */
  function Elements(path: string): seq<string> { Keep(Pieces(path)) }

  lemma SlashFirst(path: string)
    requires path != [] && path[0] == '/'
    ensures Elements(path) == Elements(path[1..])
  {
    assert ([[]] + Pieces(path[1..]))[1..] == Pieces(path[1..]);
  }

  predicate NoSlash(s: string) { forall i :: 0 <= i < |s| ==> s[i] != '/' }

  lemma {:induction false} WordPieces(path: string, k: nat)
    requires 0 <= k <= |path| && NoSlash(path[..k]) && (k < |path| ==> path[k] == '/')
    ensures Pieces(path) == [path[..k]] + Pieces(path[k..])[1..]
    decreases k
  {
    if k == 0 {
      assert path[0..] == path;
      assert Pieces(path)[0] == [];
      assert Pieces(path) == [Pieces(path)[0]] + Pieces(path)[1..];
    } else {
      assert path[1..][..k - 1] == path[..k][1..] && path[1..][k - 1..] == path[k..];
      WordPieces(path[1..], k - 1);
      assert [path[0]] + path[1..][..k - 1] == path[..k];
      assert path[..k][0] != '/';
    }
  }

  lemma WordFirst(path: string, k: nat)
    requires 0 < k <= |path| && NoSlash(path[..k]) && (k < |path| ==> path[k] == '/')
    ensures Elements(path) == [Truncated(path[..k])] + Elements(path[k..])
  {
    WordPieces(path, k);
    var rest := Pieces(path[k..]);
    assert rest[0] == [];
    assert ([path[..k]] + rest[1..])[1..] == rest[1..];
    assert Keep(rest) == Keep(rest[1..]);
  }

  lemma WordAt(path: string, s: nat, q: nat)
    requires s < q <= |path| && NoSlash(path[s..q]) && (q < |path| ==> path[q] == '/')
    ensures Elements(path[s..]) == [Truncated(path[s..q])] + Elements(path[q..])
  {
    assert path[s..][..q - s] == path[s..q] && path[s..][q - s..] == path[q..];
    WordFirst(path[s..], q - s);
  }

  // ---- skipelem ----

  ghost predicate Slashes(path: string, i: nat, j: nat) {
    i <= j <= |path| && forall k :: i <= k < j ==> path[k] == '/'
  }

  /** From p: slashes up to s, the element up to e, of which the name keeps 14 characters, and slashes up to q,
      where the next element or the end is. */
  ghost predicate ElementAt(path: string, p: nat, s: nat, e: nat, q: nat, name: string) {
    && Slashes(path, p, s) && s < e <= |path| && NoSlash(path[s..e]) && (e == |path| || path[e] == '/')
    && name == path[s..if e - s > 14 then s + 14 else e]
    && Slashes(path, e, q) && (q == |path| || path[q] != '/')
  }

  /** skipelem at position p; found is false when no element is left. */
  method Skipelem(path: string, p: nat) returns (found: bool, name: string, q: nat)
    requires p <= |path|
    ensures p <= q <= |path|
    ensures found <==> Elements(path[p..]) != []
    ensures found ==> q > p && Elements(path[p..]) == [name] + Elements(path[q..])
    ensures found ==> (q == |path| <==> Elements(path[q..]) == [])
    ensures found ==> 0 < |name| <= DIRSIZ && NoSlash(name)
    ensures found <==> exists i :: p <= i < |path| && path[i] != '/'
    ensures found ==> exists s, e :: ElementAt(path, p, s, e, q, name)
  {
    hide Elements;
    q := SkipSlashes(path, p);
    NothingLeft(path);
    if q == |path| {
      return false, [], q;
    }
    var s := q;
    while q < |path| && path[q] != '/'
      invariant s <= q <= |path| && NoSlash(path[s..q]) && (q == s ==> path[q] != '/')
    {
      assert path[s..q + 1] == path[s..q] + [path[q]];
      q := q + 1;
    }
    var len := q - s;
    if len >= DIRSIZ {
      name := path[s..s + DIRSIZ];
    } else {
      name := path[s..s + len];
    }
    WordAt(path, s, q);
    assert name == Truncated(path[s..q]);
    ghost var e := q;
    q := SkipSlashes(path, q);
    found := true;
    assert ElementAt(path, p, s, e, q, name);
    if q < |path| { NonEmpty(path[q..]); }
  }

  lemma NothingLeft(path: string)
    ensures Elements(path[|path|..]) == []
  {
    assert path[|path|..] == [] && Pieces([]) == [[]];
  }

  lemma NonEmpty(path: string)
    requires path != [] && path[0] != '/'
    ensures Elements(path) != []
  {
  }

  method SkipSlashes(path: string, p: nat) returns (q: nat)
    requires p <= |path|
    ensures p <= q <= |path| && (q < |path| ==> path[q] != '/') && Elements(path[q..]) == Elements(path[p..])
    ensures Slashes(path, p, q)
  {
    q := p;
    while q < |path| && path[q] == '/'
      invariant p <= q <= |path| && Elements(path[q..]) == Elements(path[p..]) && Slashes(path, p, q)
    {
      SlashFirst(path[q..]);
      assert path[q..][1..] == path[q + 1..];
      q := q + 1;
    }
  }

  // ---- resolution ----

  datatype Node = Dir(es: seq<Dirent>) | NotDir
  type Tree = map<nat, Node>

  datatype Option<T> = None | Some(value: T)

  /** Every name in a directory leads to an inode. */
  ghost predicate Closed(t: Tree) {
    forall d :: d in t && t[d].Dir? ==>
      DistinctNames(t[d].es) && forall k :: k in AsMap(t[d].es) ==> AsMap(t[d].es)[k] in t && AsMap(t[d].es)[k] != 0
  }

  /** One step of lookup. */
  ghost function Child(t: Tree, d: nat, name: string): Option<nat>
    requires d in t
  {
    if t[d].Dir? && Key(name) in AsMap(t[d].es) then Some(AsMap(t[d].es)[Key(name)]) else None
  }

  /** Lookup folded over a list of elements. */
  ghost function Resolve(t: Tree, d: nat, names: seq<string>): Option<nat>
    requires Closed(t) && d in t
    decreases |names|
  {
    if names == [] then Some(d)
    else
      var c := Child(t, d, names[0]);
      if c == None then None else Resolve(t, c.value, names[1..])
  }

  /** The directory that should hold the last element, and that element. */
  ghost function ResolveParent(t: Tree, d: nat, names: seq<string>): Option<(nat, string)>
    requires Closed(t) && d in t
  {
    if names == [] then None
    else
      var p := Resolve(t, d, names[..|names| - 1]);
      if p == None || p.value !in t || !t[p.value].Dir? then None else Some((p.value, names[|names| - 1]))
  }

  lemma {:induction false} ResolveIn(t: Tree, d: nat, names: seq<string>)
    requires Closed(t) && d in t
    ensures Resolve(t, d, names).Some? ==> Resolve(t, d, names).value in t
    decreases |names|
  {
    if names != [] {
      var c := Child(t, d, names[0]);
      if c.Some? { ResolveIn(t, c.value, names[1..]); }
    }
  }

  /** namei is nameiparent followed by dirlookup, for every path with an element. */
  lemma {:induction false} LookupLast(t: Tree, d: nat, names: seq<string>)
    requires Closed(t) && d in t && names != []
    ensures var p := ResolveParent(t, d, names);
      && (p.Some? ==> p.value.0 in t)
      && Resolve(t, d, names) == if p.None? then None else Child(t, p.value.0, p.value.1)
    decreases |names|
  {
    ResolveIn(t, d, names[..|names| - 1]);
    if |names| == 1 {
      assert names[..0] == [];
      var c := Child(t, d, names[0]);
      if c.Some? { assert names[1..] == []; }
    } else {
      var c := Child(t, d, names[0]);
      assert names[..|names| - 1][1..] == names[1..][..|names| - 2];
      if c.Some? { LookupLast(t, c.value, names[1..]); }
    }
  }

  class Icache {
    const tree: Tree
    var refs: multiset<nat>            // in-memory references, by inode number

    constructor (t: Tree)
      ensures tree == t && refs == multiset{}
    {
      tree := t;
      refs := multiset{};
    }

    method Iget(inum: nat)
      modifies this
      ensures refs == old(refs) + multiset{inum}
    {
      refs := refs[inum := refs[inum] + 1];
    }

    method Iput(inum: nat)
      requires inum in refs
      modifies this
      ensures refs == old(refs) - multiset{inum}
    {
      refs := refs[inum := refs[inum] - 1];
    }

    method Move(ip: nat, next: nat, ghost base: multiset<nat>)
      requires refs == base + multiset{ip}
      modifies this
      ensures refs == base + multiset{next}
    {
      Iget(next);
      Iput(ip);
    }

    /** dirlookup of a name in the directory ip, the reference moving along; 0 if there is none. */
    method Follow(ip: nat, name: string, ghost base: multiset<nat>) returns (next: nat)
      requires Closed(tree) && ip in tree && tree[ip].Dir? && refs == base + multiset{ip}
      modifies this
      ensures Child(tree, ip, name) == if next == 0 then None else Some(next)
      ensures next != 0 ==> next in tree
      ensures refs == if next == 0 then base else base + multiset{next}
    {
      hide Key, AsMap, Closed, DistinctNames, Child;
      DirDistinct(tree, ip);
      var k := Dirlookup(tree[ip].es, name);
      ChildIs(tree, ip, name, k);
      if k == |tree[ip].es| {
        Iput(ip);
        return 0;
      }
      next := tree[ip].es[k].inum;
      Move(ip, next, base);
    }

    /** namex. Result 0 is the null pointer. */
    method Namex(path: string, root: nat, cwd: nat, nameiparent: bool) returns (r: nat, name: string)
      requires Closed(tree) && root in tree && cwd in tree && root != 0 && cwd != 0
      modifies this
      ensures Answer(tree, if path != [] && path[0] == '/' then root else cwd, Elements(path), nameiparent, r, name)
      ensures refs == if r == 0 then old(refs) else old(refs) + multiset{r}
    {
      hide Elements, Closed, Child, Answer, Progress;
      var ip := if 0 < |path| && path[0] == '/' then root else cwd;
      ghost var start, base := ip, refs;
      Iget(ip);
      var p := 0;
      ghost var done: seq<string> := [];
      Begin(tree, start, path, nameiparent);
      while true
        invariant 0 <= p <= |path| && ip in tree && ip != 0 && refs == base + multiset{ip}
        invariant Progress(tree, start, path, p, ip, done, nameiparent)
        decreases |path| - p
      {
        var found, q;
        found, name, q := Skipelem(path, p);
        if !found {
          break;
        }
        if !tree[ip].Dir? {
          NoChild(tree, ip, name);
          Fails(tree, start, path, p, ip, done, nameiparent, name, q);
          Iput(ip);
          return 0, name;
        }
        if nameiparent && q == |path| {
          ParentFound(tree, start, path, p, ip, done, name, q);
          return ip, name;
        }
        var next := Follow(ip, name, base);
        if next == 0 {
          Fails(tree, start, path, p, ip, done, nameiparent, name, q);
          return 0, name;
        }
        Proceed(tree, start, path, p, ip, done, nameiparent, name, q, next);
        ip, p, done := next, q, done + [name];
      }
      Finished(tree, start, path, p, ip, done, nameiparent, name);
      if nameiparent {
        Iput(ip);
        return 0, name;
      }
      return ip, name;
    }
  }

  /** What namex promises: namei is the fold of lookup, nameiparent its last step held back. */
  ghost predicate Answer(t: Tree, d: nat, names: seq<string>, nameiparent: bool, r: nat, name: string)
    requires Closed(t) && d in t
  {
    if nameiparent then ResolveParent(t, d, names) == (if r == 0 then None else Some((r, name)))
    else Resolve(t, d, names) == (if r == 0 then None else Some(r))
  }

  /** namex's loop: the elements done so far lead from d to ip. */
  ghost predicate Progress(t: Tree, d: nat, path: string, p: nat, ip: nat, done: seq<string>, nameiparent: bool)
    requires Closed(t) && d in t && p <= |path|
  {
    && Elements(path) == done + Elements(path[p..]) && Resolve(t, d, done) == Some(ip)
    && (nameiparent && done != [] ==> Elements(path[p..]) != [])
  }

  lemma Begin(t: Tree, d: nat, path: string, nameiparent: bool)
    requires Closed(t) && d in t
    ensures Progress(t, d, path, 0, d, [], nameiparent)
  {
    assert path[0..] == path;
  }

  lemma Proceed(t: Tree, d: nat, path: string, p: nat, ip: nat, done: seq<string>, nameiparent: bool, name: string,
      q: nat, next: nat)
    requires Closed(t) && d in t && p <= q <= |path| && Progress(t, d, path, p, ip, done, nameiparent) && ip in t
    requires Elements(path[p..]) == [name] + Elements(path[q..]) && Child(t, ip, name) == Some(next)
    requires nameiparent ==> Elements(path[q..]) != []
    ensures Progress(t, d, path, q, next, done + [name], nameiparent)
  {
    hide Elements;
    Extend(t, d, done, ip, name);
    assert done + ([name] + Elements(path[q..])) == (done + [name]) + Elements(path[q..]);
  }

  lemma Fails(t: Tree, d: nat, path: string, p: nat, ip: nat, done: seq<string>, nameiparent: bool, name: string,
      q: nat)
    requires Closed(t) && d in t && p <= q <= |path| && Progress(t, d, path, p, ip, done, nameiparent) && ip in t
    requires Elements(path[p..]) == [name] + Elements(path[q..]) && Child(t, ip, name) == None
    requires nameiparent && t[ip].Dir? ==> Elements(path[q..]) != []
    ensures Answer(t, d, Elements(path), nameiparent, 0, name)
  {
    hide Elements;
    Stuck(t, d, done, ip, Elements(path));
  }

  lemma ParentFound(t: Tree, d: nat, path: string, p: nat, ip: nat, done: seq<string>, name: string, q: nat)
    requires Closed(t) && d in t && p <= q <= |path| && Progress(t, d, path, p, ip, done, true) && ip in t && t[ip].Dir?
    requires Elements(path[p..]) == [name] + Elements(path[q..]) && Elements(path[q..]) == [] && ip != 0
    ensures Answer(t, d, Elements(path), true, ip, name)
  {
    hide Elements;
    assert Elements(path) == done + [name];
    assert (done + [name])[..|done|] == done;
  }

  lemma Finished(t: Tree, d: nat, path: string, p: nat, ip: nat, done: seq<string>, nameiparent: bool, name: string)
    requires Closed(t) && d in t && p <= |path| && Progress(t, d, path, p, ip, done, nameiparent) && ip != 0
    requires Elements(path[p..]) == []
    ensures Answer(t, d, Elements(path), nameiparent, if nameiparent then 0 else ip, name)
  {
    hide Elements;
    assert done + [] == done;
  }

  lemma DirDistinct(t: Tree, d: nat)
    requires Closed(t) && d in t && t[d].Dir?
    ensures DistinctNames(t[d].es)
  {
  }

  lemma NoChild(t: Tree, d: nat, name: string)
    requires d in t && !t[d].Dir?
    ensures Child(t, d, name) == None
  {
  }

  /** dirlookup is Child. */
  lemma ChildIs(t: Tree, d: nat, name: string, k: nat)
    requires Closed(t) && d in t && t[d].Dir? && k <= |t[d].es|
    requires k < |t[d].es| <==> Key(name) in AsMap(t[d].es)
    requires k < |t[d].es| ==> AsMap(t[d].es)[Key(name)] == t[d].es[k].inum
    ensures Child(t, d, name) == if k == |t[d].es| then None else Some(t[d].es[k].inum)
    ensures k < |t[d].es| ==> t[d].es[k].inum in t && t[d].es[k].inum != 0
  {
  }

  lemma {:induction false} Extend(t: Tree, d: nat, done: seq<string>, ip: nat, name: string)
    requires Closed(t) && d in t && Resolve(t, d, done) == Some(ip) && ip in t
    ensures Resolve(t, d, done + [name]) == Child(t, ip, name)
    decreases |done|
  {
    if done == [] {
      assert ([] + [name])[1..] == [] && [] + [name] == [name];
      var c := Child(t, d, name);
      if c.Some? { assert Resolve(t, c.value, []) == c; }
    } else {
      assert (done + [name])[1..] == done[1..] + [name];
      Extend(t, Child(t, d, done[0]).value, done[1..], ip, name);
    }
  }

  /** A list that has a prefix leading to ip and goes on where ip has no child fails. */
  lemma {:induction false} StuckAt(t: Tree, d: nat, done: seq<string>, ip: nat, names: seq<string>)
    requires Closed(t) && d in t && Resolve(t, d, done) == Some(ip) && ip in t
    requires |done| < |names| && names[..|done|] == done && Child(t, ip, names[|done|]) == None
    ensures Resolve(t, d, names) == None
    decreases |done|
  {
    if done != [] {
      assert names[0] == names[..|done|][0] && names[1..][..|done| - 1] == names[..|done|][1..];
      StuckAt(t, Child(t, d, done[0]).value, done[1..], ip, names[1..]);
    }
  }

  lemma Stuck(t: Tree, d: nat, done: seq<string>, ip: nat, names: seq<string>)
    requires Closed(t) && d in t && Resolve(t, d, done) == Some(ip) && ip in t
    requires |done| < |names| && names[..|done|] == done && Child(t, ip, names[|done|]) == None
    ensures Resolve(t, d, names) == None
    ensures !t[ip].Dir? || |done| + 1 < |names| ==> ResolveParent(t, d, names) == None
  {
    StuckAt(t, d, done, ip, names);
    var short := names[..|names| - 1];
    if |done| < |short| {
      assert short[..|done|] == names[..|done|];
      StuckAt(t, d, done, ip, short);
    } else {
      assert short == done;
    }
  }
}
