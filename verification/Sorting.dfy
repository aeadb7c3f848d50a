/** Sorting by descending rank, in an order among equals that is left open. */
module Sorting {

  ghost predicate Descending<T>(s: seq<T>, rank: T -> real) {
    forall i, j :: 0 <= i < j < |s| ==> rank(s[i]) >= rank(s[j])
  }

  lemma InsertDescends<T>(s: seq<T>, rank: T -> real, x: T, i: nat)
    requires Descending(s, rank) && i <= |s|
    requires forall j :: 0 <= j < i ==> rank(s[j]) >= rank(x)
    requires i < |s| ==> rank(s[i]) < rank(x)
    ensures Descending(s[..i] + [x] + s[i..], rank)
  {
    var t := s[..i] + [x] + s[i..];
    forall k, l | 0 <= k < l < |t| ensures rank(t[k]) >= rank(t[l]) {
      assert t[k] == if k < i then s[k] else if k == i then x else s[k - 1];
      assert t[l] == if l < i then s[l] else if l == i then x else s[l - 1];
      assert i < |s| ==> rank(s[i]) >= rank(s[|s| - 1]);
    }
  }

  lemma InsertAdds<T>(s: seq<T>, x: T, i: nat)
    requires i <= |s|
    ensures multiset(s[..i] + [x] + s[i..]) == multiset(s) + multiset{x}
  {
    assert s == s[..i] + s[i..];
  }

  method Insert<T>(sorted: seq<T>, rank: T -> real, x: T) returns (r: seq<T>)
    requires Descending(sorted, rank)
    ensures Descending(r, rank) && multiset(r) == multiset(sorted) + multiset{x}
  {
    var i := 0;
    while i < |sorted| && rank(sorted[i]) >= rank(x)
      invariant i <= |sorted|
      invariant forall j :: 0 <= j < i ==> rank(sorted[j]) >= rank(x)
    {
      i := i + 1;
    }
    InsertDescends(sorted, rank, x, i);
    InsertAdds(sorted, x, i);
    r := sorted[..i] + [x] + sorted[i..];
  }

  // std::sort: some permutation in which the ranks descend.
  method Sort<T>(list: seq<T>, rank: T -> real) returns (sorted: seq<T>)
    ensures multiset(sorted) == multiset(list)
    ensures Descending(sorted, rank)
  {
    sorted := [];
    for k := 0 to |list|
      invariant multiset(sorted) == multiset(list[..k])
      invariant Descending(sorted, rank)
    {
      assert list[..k + 1] == list[..k] + [list[k]];
      sorted := Insert(sorted, rank, list[k]);
    }
    assert list[..|list|] == list;
  }
}
