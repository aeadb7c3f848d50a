/** The recursive enumeration of all words within a Hamming distance of a given one. */
module HammingBall {
  import opened Sequences
  import opened Words

  // A vector that callers share with the enumerator.
  class WordVector {
    var items: seq<Word>

    constructor ()
      ensures items == []
    {
      items := [];
    }

    method PushBack(w: Word)
      modifies this
      ensures items == old(items) + [w]
    {
      items := items + [w];
    }
  }

  // What the enumerator appends, in order: for each position from `after` on, the word with that
  // position flipped, then everything reached from it by flipping later positions.
  function Enumerate(value: Word, after: nat, dist: int): seq<Word>
    requires after <= BITS
    decreases BITS - after, value
  {
    if dist == 0 || after == BITS then []
    else
      var v := Flip(value, after);
      [v] + Enumerate(v, after + 1, dist - 1) + Enumerate(value, after + 1, dist)
  }

  function Ball(value: Word, dist: int): seq<Word> {
    Enumerate(value, 0, dist) + [value]
  }

  // A negative distance never reaches zero, so it bounds nothing.
  predicate Within(value: Word, w: Word, dist: int) {
    dist < 0 || Distance(value, w) <= dist
  }

  method EnumerateFrom(value: Word, after: nat, dist: int, res: WordVector)
    requires after <= BITS
    modifies res
    ensures res.items == old(res.items) + Enumerate(value, after, dist)
    decreases BITS - after, value
  {
    hide Flip;
    if dist == 0 {
      return;
    }
    var i := after;
    while i < BITS
      invariant after <= i <= BITS
      invariant old(res.items) + Enumerate(value, after, dist) == res.items + Enumerate(value, i, dist)
    {
      var v := FlipByTable(value, i);
      res.PushBack(v);
      EnumerateFrom(v, i + 1, dist - 1, res);
      i := i + 1;
    }
  }

  method HammingValuesWithinDistance(value: Word, dist: int, res: WordVector)
    modifies res
    ensures res.items == old(res.items) + Ball(value, dist)
  {
    EnumerateFrom(value, 0, dist, res);
    res.PushBack(value);
  }

  // --- Membership --------------------------------------------------------------------------

  // What the enumerator must reach: words changed in at least one position, in positions from
  // `after` on only, and in at most `dist` of them.
  ghost predicate Reached(changed: set<nat>, after: nat, dist: int) {
    && changed != {}
    && (forall i :: i in changed ==> after <= i)
    && (dist < 0 || |changed| <= dist)
  }

  // Either the first allowed position is flipped, alone or with others, or it is kept.
  lemma ReachedWith(changed: set<nat>, after: nat, dist: int)
    requires dist != 0 && after in changed
    ensures Reached(changed, after, dist) <==> changed == {after} || Reached(changed - {after}, after + 1, dist - 1)
    ensures !Reached(changed, after + 1, dist)
  {
    var rest := changed - {after};
    assert |rest| == |changed| - 1 && changed == rest + {after};
    assert rest == {} <==> changed == {after};
    assert (forall i :: i in changed ==> after <= i) <==> forall i :: i in rest ==> after + 1 <= i;
    assert |rest| == 0 <==> rest == {};
  }

  lemma ReachedWithout(changed: set<nat>, after: nat, dist: int)
    requires dist != 0 && after !in changed
    ensures Reached(changed, after, dist) <==> Reached(changed, after + 1, dist)
    ensures changed + {after} != {} && !Reached(changed + {after}, after + 1, dist - 1)
  {
    assert after in changed + {after};
  }

  // Reached from a position on: by flipping it alone, by flipping it and later ones, or by keeping it.
  lemma ReachedSplit(changed: set<nat>, flipped: set<nat>, after: nat, dist: int)
    requires dist != 0 && flipped == if after in changed then changed - {after} else changed + {after}
    ensures Reached(changed, after, dist) <==>
      flipped == {} || Reached(flipped, after + 1, dist - 1) || Reached(changed, after + 1, dist)
  {
    if after in changed {
      ReachedWith(changed, after, dist);
      assert changed == {after} <==> flipped == {};
    } else {
      ReachedWithout(changed, after, dist);
    }
  }

  // How flipping position i moves the set of changed positions.
  lemma FlipChanges(value: Word, i: nat, w: Word)
    requires i < BITS
    ensures var changed := Bits(Xor(w, value));
            Bits(Xor(w, Flip(value, i))) == if i in changed then changed - {i} else changed + {i}
  {
    BitsFlip(value, i);
    BitsXor(w, value);
    BitsXor(w, Flip(value, i));
  }

  lemma NothingWithinZero(changed: set<nat>, after: nat)
    ensures !Reached(changed, after, 0)
  {
    assert changed != {} ==> |changed| > 0;
  }

  lemma NothingAfterTheEnd(w: Word, value: Word, dist: int)
    ensures !Reached(Bits(Xor(w, value)), BITS, dist)
  {}

  lemma SameWord(a: Word, b: Word)
    ensures a == b <==> Bits(Xor(a, b)) == {}
  {
    DistanceIsAMetric(a, b, b);
  }

  lemma {:induction false} EnumerateExactly(value: Word, after: nat, dist: int, w: Word)
    requires after <= BITS
    ensures w in Enumerate(value, after, dist) <==> Reached(Bits(Xor(w, value)), after, dist)
    decreases BITS - after, value
  {
    hide Reached, Bits, Xor, Flip;
    var changed := Bits(Xor(w, value));
    if dist == 0 {
      NothingWithinZero(changed, after);
    } else if after == BITS {
      NothingAfterTheEnd(w, value, dist);
    } else {
      var v := Flip(value, after);
      EnumerateExactly(v, after + 1, dist - 1, w);
      EnumerateExactly(value, after + 1, dist, w);
      var flipped, kept := Enumerate(v, after + 1, dist - 1), Enumerate(value, after + 1, dist);
      assert Enumerate(value, after, dist) == [v] + flipped + kept;
      assert w in [v] + flipped + kept <==> w == v || w in flipped || w in kept;
      FlipChanges(value, after, w);
      SameWord(w, v);
      ReachedSplit(changed, Bits(Xor(w, v)), after, dist);
    }
  }

  // What flipping the position reaches, keeping it does not.
  lemma ReachedDisjoint(changed: set<nat>, flipped: set<nat>, after: nat, dist: int)
    requires dist != 0 && flipped == if after in changed then changed - {after} else changed + {after}
    requires flipped == {} || Reached(flipped, after + 1, dist - 1)
    ensures !Reached(changed, after + 1, dist)
  {
    if after in changed {
      ReachedWith(changed, after, dist);
    } else {
      ReachedWithout(changed, after, dist);
    }
  }

  lemma FlippedNotKept(value: Word, after: nat, dist: int, w: Word)
    requires after < BITS && dist != 0
    requires w == Flip(value, after) || w in Enumerate(Flip(value, after), after + 1, dist - 1)
    ensures w !in Enumerate(value, after + 1, dist)
  {
    hide Enumerate, Reached, Bits, Xor;
    var v := Flip(value, after);
    EnumerateExactly(v, after + 1, dist - 1, w);
    EnumerateExactly(value, after + 1, dist, w);
    FlipChanges(value, after, w);
    SameWord(w, v);
    ReachedDisjoint(Bits(Xor(w, value)), Bits(Xor(w, v)), after, dist);
  }

  // Joining the flipped words, themselves enumerated once, to those that keep the position.
  lemma JoinOnce(value: Word, after: nat, dist: int)
    requires after < BITS && dist != 0
    requires NoDuplicates(Enumerate(Flip(value, after), after + 1, dist - 1))
    requires NoDuplicates(Enumerate(value, after + 1, dist))
    ensures NoDuplicates(Enumerate(value, after, dist))
  {
    var v := Flip(value, after);
    var flipped, kept := Enumerate(v, after + 1, dist - 1), Enumerate(value, after + 1, dist);
    SameWord(v, v);
    EnumerateExactly(v, after + 1, dist - 1, v);
    forall w | w in [v] + flipped ensures w !in kept {
      FlippedNotKept(value, after, dist, w);
    }
    assert Enumerate(value, after, dist) == [v] + flipped + kept;
    hide *;
    NoDuplicatesConcat([v], flipped);
    NoDuplicatesConcat([v] + flipped, kept);
  }

  lemma {:induction false} EnumerateOnce(value: Word, after: nat, dist: int)
    requires after <= BITS
    ensures NoDuplicates(Enumerate(value, after, dist))
    decreases BITS - after, value
  {
    if dist == 0 || after == BITS {
    } else {
      EnumerateOnce(Flip(value, after), after + 1, dist - 1);
      EnumerateOnce(value, after + 1, dist);
      JoinOnce(value, after, dist);
    }
  }

  /** The enumeration is sound, complete and free of duplicates for every distance: a word is in
      the ball exactly when it is within the distance, and it is there once. */
  lemma BallIsExact(value: Word, dist: int)
    ensures forall w: Word :: w in Ball(value, dist) <==> Within(value, w, dist)
    ensures NoDuplicates(Ball(value, dist))
  {
    forall w: Word ensures w in Ball(value, dist) <==> Within(value, w, dist) {
      EnumerateExactly(value, 0, dist, w);
      DistanceIsAMetric(w, value, value);
    }
    EnumerateOnce(value, 0, dist);
    EnumerateExactly(value, 0, dist, value);
    SameWord(value, value);
    NoDuplicatesConcat(Enumerate(value, 0, dist), [value]);
  }

  // --- Size --------------------------------------------------------------------------------

  function Choose(n: nat, k: nat): nat {
    if k == 0 then 1 else if n == 0 then 0 else Choose(n - 1, k - 1) + Choose(n - 1, k)
  }

  // C(n, 0) + ... + C(n, d)
  function SumChoose(n: nat, d: nat): nat {
    Choose(n, d) + if d == 0 then 0 else SumChoose(n, d - 1)
  }

  lemma {:induction false} SumPascal(n: nat, d: nat)
    requires n > 0 && d > 0
    ensures SumChoose(n, d) == SumChoose(n - 1, d - 1) + SumChoose(n - 1, d)
  {
    if d <= 1 {
    } else {
      SumPascal(n, d - 1);
    }
  }

  lemma {:induction false} NothingToChoose(d: nat)
    ensures SumChoose(0, d) == 1
  {
    if d == 0 {
    } else {
      NothingToChoose(d - 1);
    }
  }

  lemma {:induction false} EnumerateSize(value: Word, after: nat, dist: nat)
    requires after <= BITS
    ensures |Enumerate(value, after, dist)| + 1 == SumChoose(BITS - after, dist)
    decreases BITS - after, value
  {
    if after == BITS {
      NothingToChoose(dist);
    } else if dist > 0 {
      var v, n := Flip(value, after), BITS - after;
      EnumerateSize(v, after + 1, dist - 1);
      EnumerateSize(value, after + 1, dist);
      SumPascal(n, dist);
      assert |Enumerate(value, after, dist)|
        == 1 + |Enumerate(v, after + 1, dist - 1)| + |Enumerate(value, after + 1, dist)|;
    }
  }

  lemma {:induction false} EnumerateAllSize(value: Word, after: nat, dist: int)
    requires after <= BITS && dist < 0
    ensures |Enumerate(value, after, dist)| + 1 == Pow2(BITS - after)
    decreases BITS - after, value
  {
    if after == BITS {
    } else {
      EnumerateAllSize(Flip(value, after), after + 1, dist - 1);
      EnumerateAllSize(value, after + 1, dist);
    }
  }

  lemma {:induction false} ChooseTooMany(n: nat, k: nat)
    requires k > n
    ensures Choose(n, k) == 0
  {
    if n == 0 {
    } else {
      ChooseTooMany(n - 1, k - 1);
      ChooseTooMany(n - 1, k);
    }
  }

  lemma {:induction false} SumStops(n: nat, d: nat)
    requires d >= n
    ensures SumChoose(n, d) == SumChoose(n, n)
  {
    if d == n {
    } else {
      ChooseTooMany(n, d);
      SumStops(n, d - 1);
    }
  }

  /** The number of words appended: the sum of C(32, k) for k up to the distance, or all words
      when the distance is negative. */
  lemma BallSize(value: Word, dist: int)
    ensures dist >= 0 ==> |Ball(value, dist)| == SumChoose(BITS, if dist < BITS then dist else BITS)
    ensures dist < 0 ==> |Ball(value, dist)| == 0x1_0000_0000
  {
    hide Enumerate, Pow2, SumChoose;
    if dist < 0 {
      EnumerateAllSize(value, 0, dist);
      Pow2OfBits();
    } else {
      EnumerateSize(value, 0, dist);
      if dist >= BITS { SumStops(BITS, dist); }
    }
  }

  // --- What callers use --------------------------------------------------------------------

  method Values(value: Word, dist: int) returns (values: seq<Word>)
    ensures values == Ball(value, dist)
    ensures forall w: Word :: w in values <==> Within(value, w, dist)
  {
    var res := new WordVector();
    HammingValuesWithinDistance(value, dist, res);
    BallIsExact(value, dist);
    values := res.items;
  }
}
