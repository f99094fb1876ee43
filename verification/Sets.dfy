/** Counting finite sets. */
module Sets {

  /** The numbers below n. */
  function Indices(n: nat): (s: set<nat>)
    ensures |s| == n && forall i: nat :: i in s <==> i < n
  {
    if n == 0 then {} else Indices(n - 1) + {n - 1}
  }

  lemma SubsetCount<T>(a: set<T>, b: set<T>)
    requires a <= b
    ensures |a| <= |b|
  {
    assert b == a + (b - a);
  }

  function AsSet<T(==)>(s: seq<T>): set<T> { set x | x in s }

  lemma {:induction false} DistinctCount<T>(s: seq<T>)
    requires forall i, j :: 0 <= i < j < |s| ==> s[i] != s[j]
    ensures |AsSet(s)| == |s|
  {
    if s != [] {
      var last := |s| - 1;
      DistinctCount(s[..last]);
      assert AsSet(s) == AsSet(s[..last]) + {s[last]};
    }
  }
}
