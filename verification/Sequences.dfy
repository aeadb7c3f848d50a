/** Sequences without repetition, and permutations of sequences. */
module Sequences {

  ghost predicate NoDuplicates<T>(s: seq<T>) {
    forall i, j :: 0 <= i < j < |s| ==> s[i] != s[j]
  }

  lemma NoDuplicatesConcat<T>(s: seq<T>, t: seq<T>)
    requires NoDuplicates(s) && NoDuplicates(t)
    requires forall x :: x in s ==> x !in t
    ensures NoDuplicates(s + t)
  {
    forall i, j | 0 <= i < j < |s + t| ensures (s + t)[i] != (s + t)[j] {
      if i < |s| <= j {
        assert (s + t)[i] in s && (s + t)[j] in t;
      }
    }
  }

  function Elements<T(==)>(s: seq<T>): set<T> {
    set x | x in s
  }

  function Front<T>(s: seq<T>): seq<T>
    requires |s| > 0
  {
    s[..|s| - 1]
  }

  function Last<T>(s: seq<T>): T
    requires |s| > 0
  {
    s[|s| - 1]
  }

  lemma FrontLast<T>(s: seq<T>)
    requires |s| > 0
    ensures s == Front(s) + [Last(s)]
    ensures multiset(s) == multiset(Front(s)) + multiset{Last(s)}
  {
    assert s == Front(s) + [Last(s)];
  }

  // Where the last element of s sits in a permutation t of s.
  lemma LocateLast<T>(s: seq<T>, t: seq<T>) returns (k: nat)
    requires |s| > 0 && multiset(s) == multiset(t)
    ensures |s| == |t| && k < |t| && t == t[..k] + [Last(s)] + t[k + 1..]
    ensures multiset(Front(s)) == multiset(t[..k] + t[k + 1..])
  {
    assert |s| == |multiset(s)| && |t| == |multiset(t)|;
    var x := Last(s);
    assert s == Front(s) + [x];
    assert x in multiset(t);
    k :| 0 <= k < |t| && t[k] == x;
    assert t == t[..k] + [x] + t[k + 1..];
    assert multiset(t) == multiset(t[..k] + t[k + 1..]) + multiset{x};
    assert multiset(Front(s)) == multiset(s) - multiset{x};
    assert multiset(t[..k] + t[k + 1..]) == multiset(t) - multiset{x};
  }

  lemma {:induction false} CountOfDistinct<T>(s: seq<T>, x: T)
    requires NoDuplicates(s)
    ensures multiset(s)[x] == if x in s then 1 else 0
  {
    if |s| == 0 {
    } else {
      FrontLast(s);
      CountOfDistinct(Front(s), x);
    }
  }

  lemma DistinctByCount<T>(s: seq<T>)
    requires forall x :: multiset(s)[x] <= 1
    ensures NoDuplicates(s)
  {
    forall i, j | 0 <= i < j < |s| ensures s[i] != s[j] {
      assert s == s[..j] + [s[j]] + s[j + 1..];
      assert multiset(s) == multiset(s[..j]) + multiset{s[j]} + multiset(s[j + 1..]);
      assert s[i] in multiset(s[..j]) by { assert s[..j][i] == s[i]; }
      assert multiset(s)[s[j]] <= 1;
    }
  }

  lemma PermutationDistinct<T>(s: seq<T>, t: seq<T>)
    requires NoDuplicates(s) && multiset(s) == multiset(t)
    ensures NoDuplicates(t)
  {
    forall x ensures multiset(t)[x] <= 1 {
      CountOfDistinct(s, x);
    }
    DistinctByCount(t);
  }

  lemma {:induction false} ElementsSize<T>(s: seq<T>)
    ensures |Elements(s)| <= |s|
    ensures NoDuplicates(s) ==> |Elements(s)| == |s|
  {
    if |s| == 0 {
    } else {
      FrontLast(s);
      ElementsSize(Front(s));
      assert Elements(s) == Elements(Front(s)) + {Last(s)};
    }
  }

  lemma SubsetSize<T>(a: set<T>, b: set<T>)
    requires a <= b
    ensures |a| <= |b|
  {
    assert b == a + (b - a);
  }

  ghost predicate Increasing(at: seq<nat>) {
    forall i, j :: 0 <= i < j < |at| ==> at[i] < at[j]
  }

  // r holds the elements of s at these positions, which increase.
  ghost predicate PicksAt<T>(r: seq<T>, s: seq<T>, at: seq<nat>) {
    && |at| == |r|
    && (forall j :: 0 <= j < |at| ==> at[j] < |s| && r[j] == s[at[j]])
    && Increasing(at)
  }

  lemma NoPicks<T>(r: seq<T>, s: seq<T>, at: seq<nat>)
    requires r == [] && at == []
    ensures PicksAt(r, s, at)
  {}

  lemma PicksNext<T>(r: seq<T>, s: seq<T>, at: seq<nat>, x: T)
    requires PicksAt(r, s, at)
    ensures PicksAt(r, s + [x], at) && PicksAt(r + [x], s + [x], at + [|s|])
  {}

  lemma IncreasingFront(at: seq<nat>)
    requires |at| > 0 && Increasing(at)
    ensures Increasing(Front(at)) && forall k: nat :: k in Front(at) <==> k in at && k < Last(at)
  {
    FrontLast(at);
  }

  // Increasing positions are determined by which they are.
  lemma {:induction false} SameIncreasing(at: seq<nat>, at': seq<nat>)
    requires Increasing(at) && Increasing(at') && |at| == |at'| && forall k: nat :: k in at <==> k in at'
    ensures at == at'
  {
    if |at| == 0 {
    } else {
      assert Last(at) in at' && Last(at') in at;
      assert Last(at) == Last(at');
      IncreasingFront(at);
      IncreasingFront(at');
      SameIncreasing(Front(at), Front(at'));
      FrontLast(at);
      FrontLast(at');
    }
  }

  lemma SamePicks<T>(r: seq<T>, s: seq<T>, at: seq<nat>, r': seq<T>, at': seq<nat>)
    requires PicksAt(r, s, at) && PicksAt(r', s, at') && forall k: nat :: k in at <==> k in at'
    ensures at == at' && r == r'
  {
    assert Elements(at) == Elements(at');
    ElementsSize(at);
    ElementsSize(at');
    SameIncreasing(at, at');
  }

  // Mapping keeps permutations.
  lemma {:induction false} MapPermuted<S, T>(f: S -> T, s: seq<S>, t: seq<S>, fs: seq<T>, ft: seq<T>)
    requires multiset(s) == multiset(t)
    requires |fs| == |s| && forall k :: 0 <= k < |s| ==> fs[k] == f(s[k])
    requires |ft| == |t| && forall k :: 0 <= k < |t| ==> ft[k] == f(t[k])
    ensures multiset(fs) == multiset(ft)
  {
    if |s| == 0 {
      assert |multiset(t)| == 0;
    } else {
      var k := LocateLast(s, t);
      MapPermuted(f, Front(s), t[..k] + t[k + 1..], Front(fs), ft[..k] + ft[k + 1..]);
      FrontLast(fs);
      SplitAt(ft, k);
      assert multiset(ft) == multiset(ft[..k] + [ft[k]] + ft[k + 1..]);
    }
  }

  // --- Positions ---------------------------------------------------------------------------

  // Where a value occurs.
  function PositionsOf<T(==)>(s: seq<T>, x: T): set<nat> {
    set i: nat | i < |s| && s[i] == x
  }

  lemma {:induction false} PositionsSize<T>(s: seq<T>, x: T)
    ensures |PositionsOf(s, x)| == multiset(s)[x]
  {
    if |s| == 0 {
    } else {
      FrontLast(s);
      PositionsSize(Front(s), x);
      var n := |s| - 1;
      assert PositionsOf(s, x) == PositionsOf(Front(s), x) + if s[n] == x then {n} else {};
    }
  }

  // --- Sequences of sequences --------------------------------------------------------------

  function Flat<T>(g: seq<seq<T>>): seq<T> {
    if |g| == 0 then [] else Flat(Front(g)) + Last(g)
  }

  lemma {:induction false} FlatConcat<T>(g: seq<seq<T>>, h: seq<seq<T>>)
    ensures Flat(g + h) == Flat(g) + Flat(h)
  {
    if |h| == 0 {
      assert g + h == g;
    } else {
      FlatConcat(g, Front(h));
      assert Front(g + h) == g + Front(h);
    }
  }

  lemma FlatOne<T>(x: seq<T>)
    ensures Flat([x]) == x
  {
    assert Front([x]) == [];
  }

  lemma FlatInsert<T>(before: seq<seq<T>>, x: seq<T>, after: seq<seq<T>>)
    ensures Flat(before + [x] + after) == Flat(before) + x + Flat(after)
  {
    hide Flat;
    FlatConcat(before + [x], after);
    FlatConcat(before, [x]);
    FlatOne(x);
  }

  lemma SplitAt<T>(g: seq<T>, k: nat)
    requires k < |g|
    ensures g[..k] + [g[k]] + g[k + 1..] == g
  {}

  lemma FlatSplit<T>(g: seq<seq<T>>, k: nat)
    requires k < |g|
    ensures Flat(g) == Flat(g[..k]) + g[k] + Flat(g[k + 1..])
  {
    hide Flat;
    SplitAt(g, k);
    FlatInsert(g[..k], g[k], g[k + 1..]);
  }

  lemma FlatJoin<T>(groups: seq<seq<T>>, k: nat, x: T)
    requires k < |groups|
    ensures multiset(Flat(groups[k := groups[k] + [x]])) == multiset(Flat(groups)) + multiset{x}
  {
    hide Flat;
    FlatSplit(groups, k);
    FlatInsert(groups[..k], groups[k] + [x], groups[k + 1..]);
    assert groups[k := groups[k] + [x]] == groups[..k] + [groups[k] + [x]] + groups[k + 1..];
  }

  lemma FlatAppend<T>(groups: seq<seq<T>>, x: T)
    ensures multiset(Flat(groups + [[x]])) == multiset(Flat(groups)) + multiset{x}
  {
    hide Flat;
    FlatConcat(groups, [[x]]);
    FlatOne([x]);
  }

  lemma FlatMember<T>(groups: seq<seq<T>>, k: nat, x: T)
    requires k < |groups| && x in groups[k]
    ensures x in Flat(groups)
  {
    hide Flat;
    FlatSplit(groups, k);
  }

  lemma FlatDistinct<T>(groups: seq<seq<T>>, k: nat)
    requires NoDuplicates(Flat(groups)) && k < |groups|
    ensures NoDuplicates(groups[k])
  {
    hide Flat;
    FlatSplit(groups, k);
    var before := Flat(groups[..k]);
    forall i, j | 0 <= i < j < |groups[k]| ensures groups[k][i] != groups[k][j] {
      assert Flat(groups)[|before| + i] == groups[k][i] && Flat(groups)[|before| + j] == groups[k][j];
    }
  }
}
