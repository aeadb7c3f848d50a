/** The order in which the words of a Hamming ball are enumerated. */
module BallOrder {
  import opened HammingBall
  import opened Sequences
  import opened Words

  // The positions of a set from `from` on, in increasing order.
  function Sorted(changed: set<nat>, from: nat): seq<nat>
    requires from <= BITS
    decreases BITS - from, changed
  {
    if from == BITS then []
    else (if from in changed then [from] else []) + Sorted(changed, from + 1)
  }

  // The order of a dictionary: a proper prefix first, otherwise by the first difference.
  predicate DictionaryBefore(s: seq<nat>, t: seq<nat>) {
    if |t| == 0 then false
    else if |s| == 0 then true
    else s[0] < t[0] || (s[0] == t[0] && DictionaryBefore(s[1..], t[1..]))
  }

  // Where a word differs from the centre.
  function Changes(value: Word, w: Word): set<nat> {
    Bits(Xor(w, value))
  }

  /** Word a is enumerated before word b: by their sorted lists of changed positions, and the centre
      after all others. */
  predicate Before(value: Word, a: Word, b: Word) {
    a != value && (b == value || DictionaryBefore(Sorted(Changes(value, a), 0), Sorted(Changes(value, b), 0)))
  }

  // --- Sorted lists of positions -----------------------------------------------------------

  lemma {:induction false} SortedAgree(c: set<nat>, d: set<nat>, from: nat)
    requires from <= BITS && forall i :: i >= from ==> (i in c <==> i in d)
    ensures Sorted(c, from) == Sorted(d, from)
    decreases BITS - from
  {
    if from == BITS {
    } else {
      SortedAgree(c, d, from + 1);
    }
  }

  lemma {:induction false} SortedFrom(c: set<nat>, from: nat)
    requires from <= BITS
    ensures forall k :: 0 <= k < |Sorted(c, from)| ==> Sorted(c, from)[k] >= from
    ensures forall i :: i in Sorted(c, from) <==> from <= i < BITS && i in c
    decreases BITS - from
  {
    if from == BITS {
    } else {
      SortedFrom(c, from + 1);
    }
  }

  lemma SortedDetermines(c: set<nat>, d: set<nat>)
    requires Sorted(c, 0) == Sorted(d, 0)
    requires (forall i :: i in c ==> i < BITS) && forall i :: i in d ==> i < BITS
    ensures c == d
  {
    SortedFrom(c, 0);
    SortedFrom(d, 0);
    forall i ensures i in c <==> i in d {
      assert i in c <==> i in Sorted(c, 0);
    }
  }

  lemma {:induction false} DictionaryTotal(s: seq<nat>, t: seq<nat>)
    ensures s == t || DictionaryBefore(s, t) || DictionaryBefore(t, s)
    ensures !(DictionaryBefore(s, t) && DictionaryBefore(t, s))
    ensures s == t ==> !DictionaryBefore(s, t)
  {
    if |s| == 0 || |t| == 0 {
    } else {
      DictionaryTotal(s[1..], t[1..]);
      assert s == [s[0]] + s[1..] && t == [t[0]] + t[1..];
    }
  }

  /** Of two different words exactly one comes before the other. */
  lemma BeforeIsTotal(value: Word, a: Word, b: Word)
    ensures a != b ==> (Before(value, a, b) <==> !Before(value, b, a))
    ensures !Before(value, a, a)
  {
    var c, d := Changes(value, a), Changes(value, b);
    DictionaryTotal(Sorted(c, 0), Sorted(d, 0));
    DictionaryTotal(Sorted(c, 0), Sorted(c, 0));
    if Sorted(c, 0) == Sorted(d, 0) {
      SortedDetermines(c, d);
      SameChanges(value, a, b);
    }
  }

  lemma SameChanges(value: Word, a: Word, b: Word)
    requires Changes(value, a) == Changes(value, b)
    ensures a == b
  {
    BitsXor(a, value);
    BitsXor(b, value);
    assert Bits(a) == (Changes(value, a) - Bits(value)) + (Bits(value) - Changes(value, a));
    assert Bits(b) == (Changes(value, b) - Bits(value)) + (Bits(value) - Changes(value, b));
    SameBits(a, b);
  }

  // --- The enumeration is in this order ----------------------------------------------------

  // The order among words that differ only from `after` on.
  ghost predicate BeforeFrom(value: Word, after: nat, a: Word, b: Word)
    requires after <= BITS
  {
    DictionaryBefore(Sorted(Changes(value, a), after), Sorted(Changes(value, b), after))
  }

  ghost predicate Ordered(value: Word, after: nat, words: seq<Word>)
    requires after <= BITS
  {
    forall i, j :: 0 <= i < j < |words| ==> BeforeFrom(value, after, words[i], words[j])
  }

  // The list of a word reached by flipping `after` first starts there.
  lemma ListOfFlipped(value: Word, after: nat, dist: int, w: Word)
    requires after < BITS && w in Enumerate(Flip(value, after), after + 1, dist)
    ensures Sorted(Changes(value, w), after) == [after] + Sorted(Changes(Flip(value, after), w), after + 1)
    ensures |Sorted(Changes(Flip(value, after), w), after + 1)| > 0
  {
    var v := Flip(value, after);
    EnumerateExactly(v, after + 1, dist, w);
    FlipChanges(value, after, w);
    SortedAgree(Changes(value, w), Changes(v, w), after + 1);
    NonEmptyList(v, after + 1, dist, w);
  }

  lemma NonEmptyList(value: Word, after: nat, dist: int, w: Word)
    requires after <= BITS && w in Enumerate(value, after, dist)
    ensures |Sorted(Changes(value, w), after)| > 0
    ensures forall i :: i in Changes(value, w) ==> after <= i < BITS
    ensures w != value
  {
    EnumerateExactly(value, after, dist, w);
    var i :| i in Changes(value, w);
    SortedFrom(Changes(value, w), after);
    SameWord(w, value);
  }

  // The list of a word that keeps `after` starts later.
  lemma ListOfKept(value: Word, after: nat, dist: int, w: Word)
    requires after < BITS && w in Enumerate(value, after + 1, dist)
    ensures Sorted(Changes(value, w), after) == Sorted(Changes(value, w), after + 1)
    ensures |Sorted(Changes(value, w), after)| > 0 && Sorted(Changes(value, w), after)[0] > after
  {
    NonEmptyList(value, after + 1, dist, w);
    SortedFrom(Changes(value, w), after + 1);
  }

  lemma ListOfFlip(value: Word, after: nat)
    requires after < BITS
    ensures Sorted(Changes(value, Flip(value, after)), after) == [after]
  {
    var v := Flip(value, after);
    FlipChanges(value, after, v);
    SameWord(v, v);
    assert Changes(value, v) == {after};
    SortedFrom({after}, after + 1);
    assert Sorted({after}, after + 1) == [] by {
      if |Sorted({after}, after + 1)| > 0 {
        assert Sorted({after}, after + 1)[0] in Sorted({after}, after + 1);
      }
    }
  }

  lemma FlippedOrdered(value: Word, after: nat, dist: int)
    requires after < BITS
    requires Ordered(Flip(value, after), after + 1, Enumerate(Flip(value, after), after + 1, dist))
    ensures Ordered(value, after, Enumerate(Flip(value, after), after + 1, dist))
  {
    var v := Flip(value, after);
    var flipped := Enumerate(v, after + 1, dist);
    forall i, j | 0 <= i < j < |flipped| ensures BeforeFrom(value, after, flipped[i], flipped[j]) {
      ListOfFlipped(value, after, dist, flipped[i]);
      ListOfFlipped(value, after, dist, flipped[j]);
      assert BeforeFrom(v, after + 1, flipped[i], flipped[j]);
    }
  }

  lemma KeptOrdered(value: Word, after: nat, dist: int)
    requires after < BITS
    requires Ordered(value, after + 1, Enumerate(value, after + 1, dist))
    ensures Ordered(value, after, Enumerate(value, after + 1, dist))
  {
    var kept := Enumerate(value, after + 1, dist);
    forall i, j | 0 <= i < j < |kept| ensures BeforeFrom(value, after, kept[i], kept[j]) {
      ListOfKept(value, after, dist, kept[i]);
      ListOfKept(value, after, dist, kept[j]);
      assert BeforeFrom(value, after + 1, kept[i], kept[j]);
    }
  }

  // Joining what flips a position to what keeps it.
  lemma OrderedConcat(value: Word, after: nat, s: seq<Word>, t: seq<Word>)
    requires after <= BITS && Ordered(value, after, s) && Ordered(value, after, t)
    requires forall a, b :: a in s && b in t ==> BeforeFrom(value, after, a, b)
    ensures Ordered(value, after, s + t)
  {
    forall i, j | 0 <= i < j < |s + t| ensures BeforeFrom(value, after, (s + t)[i], (s + t)[j]) {
      if i < |s| <= j {
        assert (s + t)[i] in s && (s + t)[j] in t;
      }
    }
  }

  lemma FlipFirst(value: Word, after: nat, dist: int)
    requires after < BITS && Ordered(value, after, Enumerate(Flip(value, after), after + 1, dist))
    ensures Ordered(value, after, [Flip(value, after)] + Enumerate(Flip(value, after), after + 1, dist))
  {
    var v := Flip(value, after);
    var flipped := Enumerate(v, after + 1, dist);
    ListOfFlip(value, after);
    forall a, b | a in [v] && b in flipped ensures BeforeFrom(value, after, a, b) {
      ListOfFlipped(value, after, dist, b);
    }
    OrderedConcat(value, after, [v], flipped);
  }

  // Whatever flips a position comes before whatever keeps it.
  lemma FlippedBeforeKept(value: Word, after: nat, dist: int, a: Word, b: Word)
    requires after < BITS && b in Enumerate(value, after + 1, dist)
    requires a == Flip(value, after) || a in Enumerate(Flip(value, after), after + 1, dist - 1)
    ensures BeforeFrom(value, after, a, b)
  {
    ListOfKept(value, after, dist, b);
    if a == Flip(value, after) {
      ListOfFlip(value, after);
    } else {
      ListOfFlipped(value, after, dist - 1, a);
    }
  }

  lemma FlippedThenKept(value: Word, after: nat, dist: int)
    requires after < BITS && dist != 0
    requires Ordered(value, after, [Flip(value, after)] + Enumerate(Flip(value, after), after + 1, dist - 1))
    requires Ordered(value, after, Enumerate(value, after + 1, dist))
    ensures Ordered(value, after, Enumerate(value, after, dist))
  {
    var v := Flip(value, after);
    var flipped, kept := [v] + Enumerate(v, after + 1, dist - 1), Enumerate(value, after + 1, dist);
    assert Enumerate(value, after, dist) == flipped + kept;
    hide *;
    forall a, b | a in flipped && b in kept ensures BeforeFrom(value, after, a, b) {
      FlippedBeforeKept(value, after, dist, a, b);
    }
    OrderedConcat(value, after, flipped, kept);
  }

  lemma NothingOrdered(value: Word, after: nat, dist: int)
    requires after <= BITS && (dist == 0 || after == BITS)
    ensures Ordered(value, after, Enumerate(value, after, dist))
  {
  }

  lemma {:induction false} EnumerateOrdered(value: Word, after: nat, dist: int)
    requires after <= BITS
    ensures Ordered(value, after, Enumerate(value, after, dist))
    decreases BITS - after, value
  {
    hide *;
    if dist == 0 || after == BITS {
      NothingOrdered(value, after, dist);
    } else {
      EnumerateOrdered(Flip(value, after), after + 1, dist - 1);
      EnumerateOrdered(value, after + 1, dist);
      FlippedOrdered(value, after, dist - 1);
      KeptOrdered(value, after, dist);
      FlipFirst(value, after, dist - 1);
      FlippedThenKept(value, after, dist);
    }
  }

  /** The ball is enumerated in this order: a word stands before another exactly when its sorted
      list of changed positions comes first in dictionary order, and the centre stands last. */
  lemma BallIsOrdered(value: Word, dist: int, i: nat, j: nat)
    requires i < |Ball(value, dist)| && j < |Ball(value, dist)|
    ensures Before(value, Ball(value, dist)[i], Ball(value, dist)[j]) <==> i < j
  {
    if i < j {
      BallInOrder(value, dist, i, j);
    } else if j < i {
      BallInOrder(value, dist, j, i);
    }
    BeforeIsTotal(value, Ball(value, dist)[i], Ball(value, dist)[j]);
  }

  lemma BallInOrder(value: Word, dist: int, i: nat, j: nat)
    requires i < j < |Ball(value, dist)|
    ensures Before(value, Ball(value, dist)[i], Ball(value, dist)[j])
    ensures Ball(value, dist)[i] != Ball(value, dist)[j]
  {
    var words := Enumerate(value, 0, dist);
    BallIsExact(value, dist);
    assert words[i] in words;
    NonEmptyList(value, 0, dist, words[i]);
    EnumerateOrdered(value, 0, dist);
    if j < |words| {
      assert BeforeFrom(value, 0, words[i], words[j]);
    }
  }
}
