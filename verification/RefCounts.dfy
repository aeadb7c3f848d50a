/** Reference counts of fingerprints, where a fingerprint within a Hamming distance of a stored
    one counts for the stored one, and the catalogues of posts grouped by counted fingerprint. */
module RefCounts {
  import opened BallOrder
  import opened HammingBall
  import opened Sequences
  import opened Words
  import opened Wrappers

  const MAX_UNSIGNED: nat := 0xFFFF_FFFF

  type Counts = map<Word, nat>

  ghost predicate Positive(ref: Counts) {
    forall k :: k in ref ==> ref[k] >= 1
  }

  ghost predicate KeysApart(ref: Counts, dist: nat) {
    forall a, b :: a in ref && b in ref && a != b ==> Distance(a, b) > dist
  }

  // The first of the values, in order, that has the greatest count.
  function Best(ref: Counts, values: seq<Word>): Option<Word> {
    if |values| == 0 then None
    else
      var best, v := Best(ref, Front(values)), Last(values);
      if v in ref && (best.None? || best.value !in ref || ref[v] > ref[best.value]) then Some(v) else best
  }

  lemma BestNext(ref: Counts, values: seq<Word>, k: nat)
    requires k < |values|
    ensures var best, v := Best(ref, values[..k]), values[k];
      Best(ref, values[..k + 1])
        == if v in ref && (best.None? || best.value !in ref || ref[v] > ref[best.value]) then Some(v) else best
  {
    assert Front(values[..k + 1]) == values[..k];
  }

  // The last of the values that is stored.
  function LastFound(ref: Counts, values: seq<Word>): Option<Word> {
    if |values| == 0 then None
    else if Last(values) in ref then Some(Last(values)) else LastFound(ref, Front(values))
  }

  ghost predicate FirstMaximum(ref: Counts, values: seq<Word>, k: nat) {
    && k < |values| && values[k] in ref
    && (forall j :: 0 <= j < |values| && values[j] in ref ==> ref[values[j]] <= ref[values[k]])
    && (forall j :: 0 <= j < k && values[j] in ref ==> ref[values[j]] < ref[values[k]])
  }

  lemma {:induction false} BestIsFirstMaximum(ref: Counts, values: seq<Word>)
    ensures Best(ref, values).None? <==> forall v :: v in values ==> v !in ref
    ensures Best(ref, values).Some? ==>
      exists k: nat :: FirstMaximum(ref, values, k) && values[k] == Best(ref, values).value
  {
    if |values| == 0 {
    } else {
      var front, v := Front(values), Last(values);
      assert values == front + [v];
      BestIsFirstMaximum(ref, front);
      if Best(ref, front).Some? {
        var k: nat :| FirstMaximum(ref, front, k) && front[k] == Best(ref, front).value;
        if v in ref && ref[v] > ref[front[k]] {
          assert FirstMaximum(ref, values, |front|);
        } else {
          assert FirstMaximum(ref, values, k);
        }
      } else if v in ref {
        assert FirstMaximum(ref, values, |front|);
      }
    }
  }

  // --- Adding ------------------------------------------------------------------------------

  // The source's unsigned addition of 1.
  function Increment(n: nat): (r: nat)
    ensures r == (n + 1) % 0x1_0000_0000 || n > MAX_UNSIGNED
  {
    if n == MAX_UNSIGNED then 0 else n + 1
  }

  // The counts after adding a fingerprint, and the stored fingerprint it counted for.
  function Add(ref: Counts, fp: Word, dist: int): (Counts, Word) {
    match Best(ref, Ball(fp, dist))
    case None => (ref[fp := 1], fp)
    case Some(r) => (ref[r := (if r in ref then ref[r] else 0) + 1], r)
  }

  // What an addition does once the first of the greatest count has been looked for.
  lemma Adds(ref: Counts, fp: Word, dist: int, found: bool, first: Word)
    requires found <==> Best(ref, Ball(fp, dist)).Some?
    requires found ==> Best(ref, Ball(fp, dist)) == Some(first) && first in ref
    ensures var key := if found then first else fp;
      CountsUnder(ref, fp, dist, key) && Add(ref, fp, dist) == (ref[key := if found then ref[first] + 1 else 1], key)
    ensures !found ==> fp !in ref
  {
    hide Ball, CountsUnder;
    AddCountsForGreatest(ref, fp, dist);
    AddedKey(ref, fp, dist);
  }

  lemma AddedKey(ref: Counts, fp: Word, dist: int)
    ensures Best(ref, Ball(fp, dist)).None? ==> fp !in ref
  {
    hide Before;
    BestIsGreatest(ref, fp, dist);
    DistanceIsAMetric(fp, fp, fp);
  }

  // The counts after adding fingerprints to an empty table, and the stored fingerprint returned
  // for each.
  function AddAll(fps: seq<Word>, dist: int): (r: (Counts, seq<Word>))
    ensures |r.1| == |fps|
  {
    if |fps| == 0 then (map[], [])
    else
      var (ref, keys) := AddAll(Front(fps), dist);
      var (ref', key) := Add(ref, Last(fps), dist);
      (ref', keys + [key])
  }

  // Of the stored keys within the distance this one has the greatest count and, among those with
  // that count, comes before all others.
  ghost predicate GreatestWithin(ref: Counts, fp: Word, dist: int, key: Word) {
    && key in ref && Within(fp, key, dist)
    && (forall a :: a in ref && Within(fp, a, dist) ==> ref[a] <= ref[key])
    && (forall a :: a in ref && Within(fp, a, dist) && ref[a] == ref[key] && a != key ==> Before(fp, key, a))
  }

  // The key a fingerprint counts for: that one, or the fingerprint itself if no key is near.
  ghost predicate CountsUnder(ref: Counts, fp: Word, dist: int, key: Word) {
    if exists a :: a in ref && Within(fp, a, dist) then GreatestWithin(ref, fp, dist, key) else key == fp
  }

  lemma BestIsGreatest(ref: Counts, fp: Word, dist: int)
    ensures Best(ref, Ball(fp, dist)).None? ==> forall a :: a in ref ==> !Within(fp, a, dist)
    ensures Best(ref, Ball(fp, dist)).Some? ==> GreatestWithin(ref, fp, dist, Best(ref, Ball(fp, dist)).value)
  {
    hide Ball, Before, Within;
    var ball := Ball(fp, dist);
    BallIsExact(fp, dist);
    BestIsFirstMaximum(ref, ball);
    if Best(ref, ball).Some? {
      var k: nat :| FirstMaximum(ref, ball, k) && ball[k] == Best(ref, ball).value;
      assert ball[k] in ball;
      forall a | a in ref && Within(fp, a, dist)
        ensures ref[a] <= ref[ball[k]] && (ref[a] == ref[ball[k]] && a != ball[k] ==> Before(fp, ball[k], a))
      {
        assert a in ball;
        var j: nat :| j < |ball| && ball[j] == a;
        BallIsOrdered(fp, dist, k, j);
      }
    }
  }

  /** An addition counts for the stored key within the distance that has the greatest count, the one
      enumerated first if there are several, and for the fingerprint itself if there is none. */
  lemma AddCountsForGreatest(ref: Counts, fp: Word, dist: int)
    ensures var (ref', key) := Add(ref, fp, dist);
      CountsUnder(ref, fp, dist, key) && ref' == ref[key := (if key in ref then ref[key] else 0) + 1]
  {
    hide Ball, Before;
    BestIsGreatest(ref, fp, dist);
    DistanceIsAMetric(fp, fp, fp);
    assert Within(fp, fp, dist);
  }

  /** So does each of a sequence of additions, by the counts of those before it. */
  lemma {:induction false} AdditionsCountForGreatest(fps: seq<Word>, dist: int, i: nat)
    requires i < |fps|
    ensures CountsUnder(AddAll(fps[..i], dist).0, fps[i], dist, AddAll(fps, dist).1[i])
  {
    if i == |fps| - 1 {
      assert fps[..i] == Front(fps);
      AddCountsForGreatest(AddAll(fps[..i], dist).0, fps[i], dist);
    } else {
      assert Front(fps)[..i] == fps[..i] && Front(fps)[i] == fps[i];
      AdditionsCountForGreatest(Front(fps), dist, i);
    }
  }

  lemma BestInBall(ref: Counts, fp: Word, dist: nat)
    ensures Best(ref, Ball(fp, dist)).None? ==> forall k :: k in ref ==> Distance(fp, k) > dist
    ensures Best(ref, Ball(fp, dist)).Some? ==>
      var r := Best(ref, Ball(fp, dist)).value;
      r in ref && Distance(fp, r) <= dist && forall k :: k in ref && Distance(fp, k) <= dist ==> ref[k] <= ref[r]
  {
    var ball := Ball(fp, dist);
    BallIsExact(fp, dist);
    BestIsFirstMaximum(ref, ball);
    if Best(ref, ball).None? {
      forall k | k in ref ensures Distance(fp, k) > dist {
        assert k in ball <==> Within(fp, k, dist);
      }
    } else {
      var i: nat :| FirstMaximum(ref, ball, i) && ball[i] == Best(ref, ball).value;
      assert ball[i] in ball;
      forall k | k in ref && Distance(fp, k) <= dist ensures ref[k] <= ref[ball[i]] {
        assert Within(fp, k, dist);
      }
    }
  }

  lemma AddStep(ref: Counts, fp: Word, dist: nat)
    requires Positive(ref) && KeysApart(ref, dist)
    ensures var (ref', key) := Add(ref, fp, dist);
      && Positive(ref') && KeysApart(ref', dist)
      && ref'.Keys == ref.Keys + {key} && Distance(fp, key) <= dist
      && (forall k :: k in ref' ==> ref'[k] == (if k in ref then ref[k] else 0) + if k == key then 1 else 0)
  {
    BestInBall(ref, fp, dist);
    DistanceIsAMetric(fp, fp, fp);
    forall k: Word { DistanceIsAMetric(fp, k, k); }
  }

  // Each count is the number of times its key was returned.
  ghost predicate CountsReturned(ref: Counts, keys: seq<Word>) {
    && (forall k :: k in keys <==> k in ref)
    && (forall k :: k in ref ==> ref[k] == multiset(keys)[k])
  }

  ghost predicate Counted(ref: Counts, keys: seq<Word>, fps: seq<Word>, dist: nat) {
    && Positive(ref) && KeysApart(ref, dist) && CountsReturned(ref, keys)
    && |keys| == |fps| && forall i :: 0 <= i < |fps| ==> Distance(fps[i], keys[i]) <= dist
  }

  lemma CountedStep(ref: Counts, keys: seq<Word>, fps: seq<Word>, fp: Word, dist: nat)
    requires Counted(ref, keys, fps, dist)
    ensures var (ref', key) := Add(ref, fp, dist);
      && Counted(ref', keys + [key], fps + [fp], dist)
      && ref'.Keys == ref.Keys + {key}
  {
    AddStep(ref, fp, dist);
    var (ref', key) := Add(ref, fp, dist);
    CountOneMore(ref, keys, ref', key);
  }

  lemma {:induction false} AddAllCounted(fps: seq<Word>, dist: nat)
    ensures var (ref, keys) := AddAll(fps, dist); Counted(ref, keys, fps, dist)
  {
    if |fps| == 0 {
    } else {
      var before := AddAll(Front(fps), dist);
      var added := Add(before.0, Last(fps), dist);
      assert Front(fps) + [Last(fps)] == fps;
      assert Counted(added.0, before.1 + [added.1], fps, dist) by {
        AddAllCounted(Front(fps), dist);
        CountedStep(before.0, before.1, Front(fps), Last(fps), dist);
      }
      assert AddAll(fps, dist) == (added.0, before.1 + [added.1]);
    }
  }

  /** Over any sequence of additions at a fixed distance: stored keys stay pairwise more than that
      distance apart, every count is positive, each addition returns a stored key within the
      distance, and the counts, as a multiset of keys, are the keys returned; so they sum to the
      number of additions. */
  lemma AddAllIsSafe(fps: seq<Word>, dist: nat)
    ensures var (ref, keys) := AddAll(fps, dist);
      && (forall a, b :: a in ref && b in ref && a != b ==> Distance(a, b) > dist)
      && (forall k :: k in ref ==> ref[k] >= 1)
      && (forall i :: 0 <= i < |fps| ==> keys[i] in ref && Distance(fps[i], keys[i]) <= dist)
      && (forall k :: multiset(keys)[k] == if k in ref then ref[k] else 0)
      && |multiset(keys)| == |fps|
  {
    AddAllCounted(fps, dist);
    var (ref, keys) := AddAll(fps, dist);
    forall k ensures multiset(keys)[k] == if k in ref then ref[k] else 0 {
      assert k in keys <==> k in multiset(keys);
    }
  }

  lemma CountOneMore(ref: Counts, keys: seq<Word>, ref': Counts, key: Word)
    requires CountsReturned(ref, keys) && ref'.Keys == ref.Keys + {key}
    requires forall k :: k in ref' ==> ref'[k] == (if k in ref then ref[k] else 0) + if k == key then 1 else 0
    ensures CountsReturned(ref', keys + [key])
  {
    assert multiset(keys + [key]) == multiset(keys) + multiset{key};
    forall k | k in ref' ensures ref'[k] == multiset(keys + [key])[k] {
      if k !in ref {
        assert k !in keys && k !in multiset(keys);
      }
    }
  }

  // --- Looking up --------------------------------------------------------------------------

  function MaxCount(ref: Counts, fp: Word, dist: int): nat {
    match Best(ref, Ball(fp, dist))
    case None => 0
    case Some(r) => if r in ref then ref[r] else 0
  }

  /** The ball lookup is the linear scan: the greatest count over all stored keys within the
      distance, and 0 when there is none. */
  lemma MaxCountIsLinearScan(ref: Counts, fp: Word, dist: int)
    requires Positive(ref)
    ensures forall k :: k in ref && Within(fp, k, dist) ==> ref[k] <= MaxCount(ref, fp, dist)
    ensures MaxCount(ref, fp, dist) > 0 ==>
      exists k :: k in ref && Within(fp, k, dist) && ref[k] == MaxCount(ref, fp, dist)
  {
    var ball := Ball(fp, dist);
    BallIsExact(fp, dist);
    BestIsFirstMaximum(ref, ball);
    if Best(ref, ball).Some? {
      var i: nat :| FirstMaximum(ref, ball, i) && ball[i] == Best(ref, ball).value;
      assert ball[i] in ball && Within(fp, ball[i], dist);
      forall k | k in ref && Within(fp, k, dist) ensures ref[k] <= ref[ball[i]] {
        assert k in ball;
      }
    }
  }

  /** Looking further never lowers the count. */
  lemma MaxCountMonotone(ref: Counts, fp: Word, d: nat, d': nat)
    requires Positive(ref) && d <= d'
    ensures MaxCount(ref, fp, d) <= MaxCount(ref, fp, d')
  {
    MaxCountIsLinearScan(ref, fp, d);
    MaxCountIsLinearScan(ref, fp, d');
    if MaxCount(ref, fp, d) > 0 {
      var k :| k in ref && Within(fp, k, d) && ref[k] == MaxCount(ref, fp, d);
      assert Within(fp, k, d');
    }
  }

  // --- The reported key --------------------------------------------------------------------

  // k is, of the stored keys within the distance, the one enumerated last.
  ghost predicate LastWithin(ref: Counts, fp: Word, dist: int, k: Word) {
    && k in ref && Within(fp, k, dist)
    && forall a :: a in ref && Within(fp, a, dist) && a != k ==> Before(fp, a, k)
  }

  lemma {:induction false} LastFoundAt(ref: Counts, values: seq<Word>) returns (i: int)
    ensures -1 <= i < |values|
    ensures forall j :: i < j < |values| ==> values[j] !in ref
    ensures i == -1 ==> LastFound(ref, values) == None
    ensures i >= 0 ==> values[i] in ref && LastFound(ref, values) == Some(values[i])
  {
    if |values| == 0 {
      i := -1;
    } else if Last(values) in ref {
      i := |values| - 1;
    } else {
      i := LastFoundAt(ref, Front(values));
    }
  }

  lemma LastFoundIsLast(ref: Counts, fp: Word, dist: int)
    ensures LastFound(ref, Ball(fp, dist)).None? <==> forall k :: k in ref ==> !Within(fp, k, dist)
    ensures LastFound(ref, Ball(fp, dist)).Some? ==> LastWithin(ref, fp, dist, LastFound(ref, Ball(fp, dist)).value)
  {
    hide Ball, Before, Within;
    var ball := Ball(fp, dist);
    BallIsExact(fp, dist);
    var i := LastFoundAt(ref, ball);
    forall k | k in ref && Within(fp, k, dist)
      ensures i >= 0 && (k == ball[i] || Before(fp, k, ball[i]))
    {
      assert k in ball;
      var j :| 0 <= j < |ball| && ball[j] == k;
      BallIsOrdered(fp, dist, j, i);
    }
    assert i >= 0 ==> ball[i] in ball;
  }

  /** For every fingerprint, stored or not: the key the lookup reports is the stored key within the
      distance that the enumeration reaches last, and it reports none exactly when there is none. */
  lemma ReportedKeyIsLast(ref: Counts, fp: Word, dist: int, k: Word)
    ensures LastFound(ref, Ball(fp, dist)) == Some(k) <==> LastWithin(ref, fp, dist, k)
    ensures LastFound(ref, Ball(fp, dist)).None? <==> forall a :: a in ref ==> !Within(fp, a, dist)
  {
    LastFoundIsLast(ref, fp, dist);
    if LastWithin(ref, fp, dist, k) {
      var last := LastFound(ref, Ball(fp, dist)).value;
      BeforeIsTotal(fp, k, last);
    }
  }

  /** So the reported key carries the reported count exactly when no stored key within the distance
      outnumbers the one enumerated last. */
  lemma ReportedKeyCarriesCount(ref: Counts, fp: Word, dist: int, k: Word)
    requires Positive(ref) && LastFound(ref, Ball(fp, dist)) == Some(k)
    ensures LastWithin(ref, fp, dist, k)
    ensures ref[k] == MaxCount(ref, fp, dist) <==> forall a :: a in ref && Within(fp, a, dist) ==> ref[a] <= ref[k]
  {
    ReportedKeyIsLast(ref, fp, dist, k);
    MaxCountIsLinearScan(ref, fp, dist);
  }

  // A stored fingerprint is enumerated last of all, so it is the key reported for itself.
  lemma ReportedKeyOfStored(ref: Counts, fp: Word, dist: int)
    requires fp in ref
    ensures LastFound(ref, Ball(fp, dist)) == Some(fp)
  {
    assert Last(Ball(fp, dist)) == fp;
  }

  /** The reported key need not carry the reported count: two stored keys two apart, looked up at
      distance 2. */
  lemma ReportedKeyMismatch(fp: Word, k: Word)
    requires Distance(fp, k) == 2
    ensures var (ref, keys) := AddAll([fp, k, k], 1);
      && LastFound(ref, Ball(fp, 2)) == Some(fp) && fp in ref && ref[fp] == 1 && MaxCount(ref, fp, 2) == 2
  {
    DistanceIsAMetric(fp, k, k);
    TwoStored(fp, k);
    var ref := map[fp := 1, k := 2];
    ReportedKeyOfStored(ref, fp, 2);
    MaxCountIsLinearScan(ref, fp, 2);
    assert Within(fp, k, 2);
  }

  /** Nor need it when the fingerprint looked up was counted for a neighbour and is not stored: a
      later position hides the neighbour that outnumbers it. */
  lemma ReportedKeyMismatchOfCounted(fp: Word, i: nat, j: nat, l: nat)
    requires i < j < l < BITS
    ensures var near, far := Flip(fp, i), Flip(Flip(fp, j), l);
      var (ref, keys) := AddAll([near, fp, far], 1);
      && fp !in ref && MaxCount(ref, fp, 2) == 2
      && LastFound(ref, Ball(fp, 2)) == Some(far) && far in ref && ref[far] == 1
  {
    var near, far := Flip(fp, i), Flip(Flip(fp, j), l);
    CountedThenStored(fp, i, j, l);
    var ref := map[near := 2, far := 1];
    OneFlipApart(fp, i);
    TwoFlipsApart(fp, j, l);
    DistanceIsAMetric(fp, near, near);
    DistanceIsAMetric(fp, far, far);
    LowerFlipFirst(fp, i, j, l);
    assert Within(fp, near, 2) && Within(fp, far, 2);
    ReportedKeyIsLast(ref, fp, 2, far);
    MaxCountIsLinearScan(ref, fp, 2);
  }

  lemma LowerFlipFirst(fp: Word, i: nat, j: nat, l: nat)
    requires i < j < l < BITS
    ensures Before(fp, Flip(fp, i), Flip(Flip(fp, j), l))
  {
    var near, far := Flip(fp, i), Flip(Flip(fp, j), l);
    BitsFlip(fp, i);
    BitsFlip(fp, j);
    BitsFlip(Flip(fp, j), l);
    BitsXor(near, fp);
    BitsXor(far, fp);
    assert Changes(fp, near) == {i} && Changes(fp, far) == {j, l};
    SortedFrom({i}, 0);
    SortedFrom({j, l}, 0);
    assert i in Sorted({i}, 0) && j in Sorted({j, l}, 0);
    assert Sorted({i}, 0)[0] in Sorted({i}, 0) && Sorted({j, l}, 0)[0] in Sorted({j, l}, 0);
    OneFlipApart(fp, i);
    SameWord(near, fp);
  }

  // The fingerprint counts for the first key; the last key is three away from it.
  lemma CountedThenStored(fp: Word, i: nat, j: nat, l: nat)
    requires i < j < l < BITS
    ensures var near, far := Flip(fp, i), Flip(Flip(fp, j), l);
      near != far && fp != near && fp != far && AddAll([near, fp, far], 1).0 == map[near := 2, far := 1]
  {
    var near, far := Flip(fp, i), Flip(Flip(fp, j), l);
    OneFlipApart(fp, i);
    TwoFlipsApart(fp, j, l);
    ThreeFlipsApart(fp, i, j, l);
    DistanceIsAMetric(fp, near, near);
    DistanceIsAMetric(fp, far, far);
    DistanceIsAMetric(far, near, near);
    AddOnce(map[], near, 1);
    BestInBall(map[near := 1], fp, 1);
    assert Add(map[near := 1], fp, 1).0 == map[near := 2];
    AddOnce(map[near := 2], far, 1);
    AddAllStep([], near, 1);
    AddAllStep([] + [near], fp, 1);
    AddAllStep([] + [near] + [fp], far, 1);
    assert [] + [near] + [fp] + [far] == [near, fp, far];
    assert map[near := 2][far := 1] == map[near := 2, far := 1];
  }

  lemma ThreeFlipsApart(v: Word, i: nat, j: nat, l: nat)
    requires i < j < l < BITS
    ensures Distance(Flip(v, i), Flip(Flip(v, j), l)) == 3
  {
    hide Flip, Xor, Bits;
    BitsXor(Flip(v, i), Flip(Flip(v, j), l));
    BitsFlip(v, i);
    BitsFlip(v, j);
    BitsFlip(Flip(v, j), l);
    var rest := {j, l};
    assert Bits(Xor(Flip(v, i), Flip(Flip(v, j), l))) == rest + {i};
    assert |rest| == 2 && i !in rest;
  }

  lemma TwoStored(fp: Word, k: Word)
    requires Distance(fp, k) == 2
    ensures fp != k && AddAll([fp, k, k], 1).0 == map[fp := 1, k := 2]
  {
    DistanceIsAMetric(fp, k, k);
    DistanceIsAMetric(k, k, k);
    AddOnce(map[], fp, 1);
    AddOnce(map[fp := 1], k, 1);
    AddAgain(map[fp := 1][k := 1], fp, k);
    assert map[fp := 1][k := 1][k := 2] == map[fp := 1, k := 2];
    AddAllStep([], fp, 1);
    AddAllStep([] + [fp], k, 1);
    AddAllStep([] + [fp] + [k], k, 1);
    assert [] + [fp] + [k] + [k] == [fp, k, k];
  }

  lemma AddAgain(ref: Counts, fp: Word, k: Word)
    requires ref == map[fp := 1, k := 1] && Distance(k, fp) == 2 && Distance(k, k) == 0
    ensures Add(ref, k, 1) == (ref[k := 2], k)
  {
    BestInBall(ref, k, 1);
  }

  lemma AddOnce(ref: Counts, fp: Word, dist: nat)
    requires forall k :: k in ref ==> Distance(fp, k) > dist
    ensures Add(ref, fp, dist) == (ref[fp := 1], fp)
  {
    BestInBall(ref, fp, dist);
  }

  lemma AddAllStep(fps: seq<Word>, fp: Word, dist: nat)
    ensures AddAll(fps + [fp], dist).0 == Add(AddAll(fps, dist).0, fp, dist).0
  {
    assert Front(fps + [fp]) == fps;
  }

  // --- The counter -------------------------------------------------------------------------

  class RefCount {
    var ref: Counts

    // Every count fits the source's unsigned int.
    ghost predicate Valid()
      reads this
    {
      forall k :: k in ref ==> 1 <= ref[k] <= MAX_UNSIGNED
    }

    constructor ()
      ensures Valid() && ref == map[]
    {
      ref := map[];
    }

    method AddFingerPrint(fp: Word, dist: int) returns (res: Word)
      requires Valid()
      modifies this
      ensures res == Add(old(ref), fp, dist).1
      ensures CountsUnder(old(ref), fp, dist, res)
      ensures ref == old(ref)[res := if res in old(ref) then Increment(old(ref)[res]) else 1]
      ensures (res in old(ref) && old(ref)[res] == MAX_UNSIGNED) || (Valid() && ref == Add(old(ref), fp, dist).0)
    {
      var fpValues := Values(fp, dist);
      var flag;
      flag, res := FindGreatest(fpValues);
      hide Best, Ball, CountsUnder, Add, Within;
      Adds(ref, fp, dist, flag, res);
      if !flag {
        res := fp;
        ref := ref[fp := 1];
      } else {
        ref := ref[res := Increment(ref[res])];
      }
    }

    // The loop of AddFingerPrint: whether a value is stored, and the first of the greatest count.
    method FindGreatest(fpValues: seq<Word>) returns (flag: bool, res: Word)
      requires Valid()
      ensures flag <==> Best(ref, fpValues).Some?
      ensures flag ==> Best(ref, fpValues) == Some(res) && res in ref
    {
      flag, res := false, 0;
      var maxCount := 0;
      assert Best(ref, fpValues[..0]) == None;
      hide Best;
      for k := 0 to |fpValues|
        invariant flag <==> Best(ref, fpValues[..k]).Some?
        invariant flag ==> Best(ref, fpValues[..k]) == Some(res) && res in ref && maxCount == ref[res]
        invariant !flag ==> maxCount == 0
      {
        BestNext(ref, fpValues, k);
        var v := fpValues[k];
        if v in ref {
          flag := true;
          if ref[v] > maxCount {
            maxCount := ref[v];
            res := v;
          }
        }
      }
      assert fpValues[..|fpValues|] == fpValues;
    }

    // The out-argument keeps its value when nothing is found.
    method GetRefCount(fp: Word, dist: int, retFpIn: Word) returns (maxCount: nat, retFp: Word)
      requires Valid()
      ensures maxCount == MaxCount(ref, fp, dist)
      ensures retFp == LastFound(ref, Ball(fp, dist)).GetOr(retFpIn)
      ensures if exists a :: a in ref && Within(fp, a, dist)
              then LastWithin(ref, fp, dist, retFp)
                && exists a :: GreatestWithin(ref, fp, dist, a) && ref[a] == maxCount
              else retFp == retFpIn && maxCount == 0
    {
      var fpValues := Values(fp, dist);
      maxCount, retFp := 0, retFpIn;
      for k := 0 to |fpValues|
        invariant Best(ref, fpValues[..k]).None? ==> maxCount == 0
        invariant Best(ref, fpValues[..k]).Some? ==> Best(ref, fpValues[..k]).value in ref
        invariant Best(ref, fpValues[..k]).Some? ==> maxCount == ref[Best(ref, fpValues[..k]).value]
        invariant retFp == LastFound(ref, fpValues[..k]).GetOr(retFpIn)
      {
        assert Front(fpValues[..k + 1]) == fpValues[..k];
        var v := fpValues[k];
        if v in ref {
          retFp := v;
          if ref[v] > maxCount {
            maxCount := ref[v];
            retFp := v;
          }
        }
      }
      assert fpValues[..|fpValues|] == fpValues;
      hide Best, LastFound, Ball, Within, GreatestWithin, LastWithin;
      BestIsGreatest(ref, fp, dist);
      LastFoundIsLast(ref, fp, dist);
    }

    method Clear()
      modifies this
      ensures Valid() && ref == map[]
    {
      ref := map[];
    }
  }

  // --- Catalogues --------------------------------------------------------------------------

  // A parsed post: its fingerprint and its words.
  datatype ParsedBlog = ParsedBlog(fingerprint: Word, words: seq<string>)

  function Fingerprints(blogs: seq<ParsedBlog>): seq<Word> {
    seq(|blogs|, i requires 0 <= i < |blogs| => blogs[i].fingerprint)
  }

  // The posts for which `key` was returned.
  function Catalogue(blogs: seq<ParsedBlog>, keys: seq<Word>, key: Word): seq<ParsedBlog>
    requires |blogs| == |keys|
  {
    if |blogs| == 0 then []
    else Catalogue(Front(blogs), Front(keys), key) + if Last(keys) == key then [Last(blogs)] else []
  }

  lemma {:induction false} CatalogueSize(blogs: seq<ParsedBlog>, keys: seq<Word>, key: Word, dist: nat)
    requires |blogs| == |keys|
    requires forall i :: 0 <= i < |blogs| ==> Distance(blogs[i].fingerprint, keys[i]) <= dist
    ensures |Catalogue(blogs, keys, key)| == multiset(keys)[key]
    ensures forall b :: b in Catalogue(blogs, keys, key) ==> Distance(b.fingerprint, key) <= dist
  {
    if |blogs| == 0 {
    } else {
      CatalogueSize(Front(blogs), Front(keys), key, dist);
      FrontLast(keys);
    }
  }

  // Exactly the posts for which the key was returned, in order.
  ghost predicate IsCatalogue(catalogue: seq<ParsedBlog>, blogs: seq<ParsedBlog>, keys: seq<Word>, key: Word)
    requires |blogs| == |keys|
  {
    exists at :: PicksAt(catalogue, blogs, at) && forall k: nat :: k in at <==> k < |keys| && keys[k] == key
  }

  lemma {:induction false} CatalogueAt(blogs: seq<ParsedBlog>, keys: seq<Word>, key: Word) returns (at: seq<nat>)
    requires |blogs| == |keys|
    ensures PicksAt(Catalogue(blogs, keys, key), blogs, at)
    ensures forall k: nat :: k in at <==> k < |keys| && keys[k] == key
  {
    if |blogs| == 0 {
      at := [];
    } else {
      at := CatalogueAt(Front(blogs), Front(keys), key);
      FrontLast(blogs);
      PicksNext(Catalogue(Front(blogs), Front(keys), key), Front(blogs), at, Last(blogs));
      if Last(keys) == key {
        at := at + [|blogs| - 1];
      }
    }
  }

  /** Each catalogue is keyed by a stored fingerprint, has as many posts as that fingerprint's
      count, and holds only posts within the distance of it. */
  lemma CataloguesAgreeWithCounts(blogs: seq<ParsedBlog>, dist: nat, key: Word)
    ensures var (ref, keys) := AddAll(Fingerprints(blogs), dist);
      && |keys| == |blogs| && (key in keys <==> key in ref)
      && |Catalogue(blogs, keys, key)| == (if key in ref then ref[key] else 0)
      && forall b :: b in Catalogue(blogs, keys, key) ==> Distance(b.fingerprint, key) <= dist
  {
    var fps := Fingerprints(blogs);
    AddAllCounted(fps, dist);
    var (ref, keys) := AddAll(fps, dist);
    CatalogueSize(blogs, keys, key, dist);
    assert key in multiset(keys) <==> key in keys;
  }

  ghost predicate Filed(catalogs: map<Word, seq<ParsedBlog>>, blogs: seq<ParsedBlog>, keys: seq<Word>)
    requires |blogs| == |keys|
  {
    && (forall key :: key in catalogs <==> key in keys)
    && (forall key :: key in catalogs ==> catalogs[key] == Catalogue(blogs, keys, key))
  }

  lemma FiledStep(catalogs: map<Word, seq<ParsedBlog>>, blogs: seq<ParsedBlog>, keys: seq<Word>, pb: ParsedBlog,
          key: Word)
    requires |blogs| == |keys| && Filed(catalogs, blogs, keys)
    ensures Filed(catalogs[key := (if key in catalogs then catalogs[key] else []) + [pb]], blogs + [pb], keys + [key])
  {
    AbsentCatalogue(blogs, keys, key);
    assert Front(blogs + [pb]) == blogs && Front(keys + [key]) == keys;
  }

  // What the counter holds after some posts, and the keys it returned.
  ghost predicate CountsFor(ref: Counts, keys: seq<Word>, blogs: seq<ParsedBlog>, dist: nat) {
    (ref, keys) == AddAll(Fingerprints(blogs), dist) && |keys| == |blogs|
  }

  lemma CountsForStep(ref: Counts, keys: seq<Word>, blogs: seq<ParsedBlog>, pb: ParsedBlog, dist: nat)
    requires CountsFor(ref, keys, blogs, dist)
    ensures var (ref', key) := Add(ref, pb.fingerprint, dist); CountsFor(ref', keys + [key], blogs + [pb], dist)
    ensures forall k :: k in ref ==> ref[k] <= |blogs|
  {
    assert Front(Fingerprints(blogs + [pb])) == Fingerprints(blogs);
    AddAllCounted(Fingerprints(blogs), dist);
    CountsBounded(ref, keys);
  }

  method FillCatalogues(blogs: seq<ParsedBlog>, dist: nat)
      returns (ref: RefCount, parsedBlogs: seq<ParsedBlog>, catalogs: map<Word, seq<ParsedBlog>>)
    requires |blogs| <= MAX_UNSIGNED
    ensures fresh(ref) && ref.ref == AddAll(Fingerprints(blogs), dist).0
    ensures parsedBlogs == blogs && catalogs.Keys == ref.ref.Keys
    ensures forall key :: key in catalogs ==>
      IsCatalogue(catalogs[key], blogs, AddAll(Fingerprints(blogs), dist).1, key) && |catalogs[key]| == ref.ref[key]
  {
    ref := new RefCount();
    parsedBlogs, catalogs := [], map[];
    ghost var keys: seq<Word> := [];
    assert CountsFor(ref.ref, keys, parsedBlogs, dist) && Filed(catalogs, parsedBlogs, keys);
    hide CountsFor, Filed, CountsUnder, Increment, IsCatalogue;
    for k := 0 to |blogs|
      invariant fresh(ref) && ref.Valid() && parsedBlogs == blogs[..k] && |keys| == k
      invariant CountsFor(ref.ref, keys, parsedBlogs, dist) && Filed(catalogs, parsedBlogs, keys)
    {
      var pb := blogs[k];
      CountsForStep(ref.ref, keys, parsedBlogs, pb, dist);
      var matchFp := ref.AddFingerPrint(pb.fingerprint, dist);
      FiledStep(catalogs, parsedBlogs, keys, pb, matchFp);
      keys := keys + [matchFp];
      parsedBlogs := parsedBlogs + [pb];
      catalogs := catalogs[matchFp := (if matchFp in catalogs then catalogs[matchFp] else []) + [pb]];
    }
    assert parsedBlogs == blogs;
    AllFiled(ref.ref, keys, catalogs, blogs, dist);
  }

  // When all posts are filed, the catalogues are those of the keys returned and as large as the counts.
  lemma AllFiled(ref: Counts, keys: seq<Word>, catalogs: map<Word, seq<ParsedBlog>>, blogs: seq<ParsedBlog>, dist: nat)
    requires |keys| == |blogs| && CountsFor(ref, keys, blogs, dist) && Filed(catalogs, blogs, keys)
    ensures (ref, keys) == AddAll(Fingerprints(blogs), dist) && catalogs.Keys == ref.Keys
    ensures forall key :: key in catalogs ==>
      IsCatalogue(catalogs[key], blogs, keys, key) && |catalogs[key]| == ref[key]
  {
    forall key
      ensures key in catalogs <==> key in ref
      ensures key in catalogs ==> IsCatalogue(catalogs[key], blogs, keys, key) && |catalogs[key]| == ref[key]
    {
      CataloguesAgreeWithCounts(blogs, dist, key);
      var at := CatalogueAt(blogs, keys, key);
    }
  }

  lemma CountsBounded(ref: Counts, keys: seq<Word>)
    requires CountsReturned(ref, keys)
    ensures forall k :: k in ref ==> ref[k] <= |keys|
  {
    assert |multiset(keys)| == |keys|;
    forall k | k in ref ensures ref[k] <= |keys| {
      assert multiset(keys) == multiset(keys)[k := 0] + multiset{}[k := multiset(keys)[k]];
    }
  }

  lemma {:induction false} AbsentCatalogue(blogs: seq<ParsedBlog>, keys: seq<Word>, key: Word)
    requires |blogs| == |keys|
    ensures key !in keys ==> Catalogue(blogs, keys, key) == []
  {
    if |blogs| == 0 {
    } else {
      AbsentCatalogue(Front(blogs), Front(keys), key);
    }
  }
}
