/** 32-bit words as numbers with binary digits, and the Hamming distance between them. */
module Words {
  import opened Sequences

  const BITS: nat := 32

  type Word = w: nat | w < 0x1_0000_0000

  // --- Binary digits and the bitwise operators ---------------------------------------------

  predicate Bit(v: nat, i: nat) {
    if i == 0 then v % 2 == 1 else Bit(v / 2, i - 1)
  }

  function And(a: nat, b: nat): nat {
    if a == 0 then 0 else 2 * And(a / 2, b / 2) + (if a % 2 == 1 && b % 2 == 1 then 1 else 0)
  }

  function Or(a: nat, b: nat): nat
    decreases a + b
  {
    if a + b == 0 then 0 else 2 * Or(a / 2, b / 2) + (if a % 2 == 1 || b % 2 == 1 then 1 else 0)
  }

  function Xor(a: nat, b: nat): nat
    decreases a + b
  {
    if a + b == 0 then 0 else 2 * Xor(a / 2, b / 2) + (if a % 2 != b % 2 then 1 else 0)
  }

  function Pow2(i: nat): (p: nat)
    ensures p > 0
  {
    if i == 0 then 1 else 2 * Pow2(i - 1)
  }

  // The source's table of single-bit masks, one entry per bit position.
  function XorArr(i: nat): Word
    requires i < BITS
  {
    match i
    case 0 => 0x1 case 1 => 0x2 case 2 => 0x4 case 3 => 0x8
    case 4 => 0x10 case 5 => 0x20 case 6 => 0x40 case 7 => 0x80
    case 8 => 0x100 case 9 => 0x200 case 10 => 0x400 case 11 => 0x800
    case 12 => 0x1000 case 13 => 0x2000 case 14 => 0x4000 case 15 => 0x8000
    case 16 => 0x10000 case 17 => 0x20000 case 18 => 0x40000 case 19 => 0x80000
    case 20 => 0x100000 case 21 => 0x200000 case 22 => 0x400000 case 23 => 0x800000
    case 24 => 0x1000000 case 25 => 0x2000000 case 26 => 0x4000000 case 27 => 0x8000000
    case 28 => 0x10000000 case 29 => 0x20000000 case 30 => 0x40000000 case _ => 0x80000000
  }

  // The positions of the digits that are set.
  function Bits(v: nat): set<nat> {
    set i: nat | i < BITS && Bit(v, i)
  }

  // The Hamming distance: the number of positions where two words differ.
  function Distance(a: Word, b: Word): nat {
    |Bits(Xor(a, b))|
  }

  // --- Digits of the operators -------------------------------------------------------------

  lemma {:induction false} ZeroDigits(i: nat)
    ensures !Bit(0, i)
  {
    if i == 0 {
    } else {
      ZeroDigits(i - 1);
    }
  }

  lemma {:induction false} AndDigit(a: nat, b: nat, i: nat)
    ensures Bit(And(a, b), i) <==> Bit(a, i) && Bit(b, i)
    decreases i
  {
    if a == 0 {
      ZeroDigits(i);
    } else if i > 0 {
      AndDigit(a / 2, b / 2, i - 1);
    }
  }

  lemma {:induction false} OrDigit(a: nat, b: nat, i: nat)
    ensures Bit(Or(a, b), i) <==> Bit(a, i) || Bit(b, i)
    decreases i
  {
    if a + b == 0 {
      ZeroDigits(i);
    } else if i > 0 {
      OrDigit(a / 2, b / 2, i - 1);
    }
  }

  lemma {:induction false} XorDigit(a: nat, b: nat, i: nat)
    ensures Bit(Xor(a, b), i) <==> Bit(a, i) != Bit(b, i)
    decreases i
  {
    if a + b == 0 {
      ZeroDigits(i);
    } else if i > 0 {
      XorDigit(a / 2, b / 2, i - 1);
    }
  }

  lemma {:induction false} Pow2Digit(k: nat, i: nat)
    ensures Bit(Pow2(k), i) <==> i == k
  {
    if k == 0 {
      if i > 0 {
        ZeroDigits(i - 1);
      }
    } else if i > 0 {
      Pow2Digit(k - 1, i - 1);
    }
  }

  /** The table entry for a position is the power of two for that position. */
  lemma XorArrIsPow2(i: nat)
    requires i < BITS
    ensures XorArr(i) == Pow2(i)
  {
    if i < 8 {} else if i < 16 {} else if i < 24 {}
  }

  ghost predicate DigitsBelow(v: nat, k: nat) {
    forall i: nat :: Bit(v, i) ==> i < k
  }

  lemma {:induction false} Fits(v: nat, k: nat)
    ensures v < Pow2(k) <==> DigitsBelow(v, k)
    decreases v, k
  {
    if v == 0 {
      forall i: nat ensures !Bit(v, i) { ZeroDigits(i); }
    } else if k == 0 {
      var i := TopDigit(v);
    } else {
      Fits(v / 2, k - 1);
      assert v < Pow2(k) <==> v / 2 < Pow2(k - 1);
      if DigitsBelow(v / 2, k - 1) {
        forall i: nat | Bit(v, i) ensures i < k {
          assert i == 0 || Bit(v / 2, i - 1);
        }
      } else {
        var i: nat :| Bit(v / 2, i) && i >= k - 1;
        assert Bit(v, i + 1);
      }
    }
  }

  lemma {:induction false} TopDigit(v: nat) returns (i: nat)
    requires v > 0
    ensures Bit(v, i)
  {
    if v % 2 == 1 {
      i := 0;
    } else {
      i := TopDigit(v / 2);
      i := i + 1;
    }
  }

  lemma {:induction false} SameDigits(a: nat, b: nat)
    requires forall i: nat :: Bit(a, i) <==> Bit(b, i)
    ensures a == b
    decreases a + b
  {
    if a + b == 0 {
    } else {
      assert Bit(a, 0) <==> Bit(b, 0);
      forall i: nat ensures Bit(a / 2, i) <==> Bit(b / 2, i) {
        assert Bit(a, i + 1) <==> Bit(b, i + 1);
      }
      SameDigits(a / 2, b / 2);
    }
  }

  // --- Words as sets of positions ----------------------------------------------------------

  lemma Pow2OfBits()
    ensures Pow2(BITS) == 0x1_0000_0000
  {
    XorArrIsPow2(BITS - 1);
    assert XorArr(31) == 0x8000_0000;
  }

  lemma WordDigits(v: nat)
    ensures v < 0x1_0000_0000 <==> DigitsBelow(v, BITS)
  {
    hide DigitsBelow, Pow2;
    Fits(v, BITS);
    Pow2OfBits();
  }

  lemma XorIsWord(a: Word, b: Word)
    ensures Xor(a, b) < 0x1_0000_0000
  {
    WordDigits(a);
    WordDigits(b);
    forall i: nat | Bit(Xor(a, b), i) ensures i < BITS { XorDigit(a, b, i); }
    WordDigits(Xor(a, b));
  }

  function XorWord(a: Word, b: Word): Word {
    XorIsWord(a, b);
    Xor(a, b)
  }

  lemma BitsXor(a: nat, b: nat)
    ensures Bits(Xor(a, b)) == (Bits(a) - Bits(b)) + (Bits(b) - Bits(a))
  {
    forall i: nat { XorDigit(a, b, i); }
  }

  lemma Pow2IsWord(i: nat)
    requires i < BITS
    ensures Pow2(i) < 0x1_0000_0000
  {
    XorArrIsPow2(i);
  }

  // The word with one position flipped.
  function Flip(value: Word, i: nat): Word
    requires i < BITS
  {
    Pow2IsWord(i);
    XorWord(value, Pow2(i))
  }

  lemma BitsFlip(value: Word, i: nat)
    requires i < BITS
    ensures Bits(Flip(value, i)) == (Bits(value) - {i}) + ({i} - Bits(value))
  {
    forall j: nat { Pow2Digit(i, j); }
    assert Bits(Pow2(i)) == {i};
    BitsXor(value, Pow2(i));
  }

  /** Words are equal exactly when they have the same digits set. */
  lemma SameBits(a: Word, b: Word)
    ensures a == b <==> Bits(a) == Bits(b)
  {
    if Bits(a) == Bits(b) {
      WordDigits(a);
      WordDigits(b);
      forall i: nat ensures Bit(a, i) <==> Bit(b, i) {
        assert Bit(a, i) <==> i in Bits(a);
        assert Bit(b, i) <==> i in Bits(b);
      }
      SameDigits(a, b);
    }
  }

  lemma NoBits(v: Word)
    ensures Bits(v) == {} <==> v == 0
  {
    forall i: nat { ZeroDigits(i); }
    assert Bits(0) == {};
    SameBits(v, 0);
  }

  function Positions(n: nat): (s: set<nat>)
    ensures forall i: nat :: i in s <==> i < n
  {
    if n == 0 then {} else Positions(n - 1) + {n - 1}
  }

  lemma PositionsCard(n: nat)
    ensures |Positions(n)| == n
  {}

  // --- The distance is a metric ------------------------------------------------------------

  lemma SymmetricDifferences(a: set<nat>, b: set<nat>, c: set<nat>)
    ensures |(a - c) + (c - a)| <= |(a - b) + (b - a)| + |(b - c) + (c - b)|
  {
    var ab, bc := (a - b) + (b - a), (b - c) + (c - b);
    SubsetSize((a - c) + (c - a), ab + bc);
    SubsetSize(bc - ab, bc);
    assert ab + bc == ab + (bc - ab);
  }

  /** The distance is at most 32, is zero only between equal words, is symmetric, and obeys the
      triangle inequality. */
  lemma DistanceIsAMetric(a: Word, b: Word, c: Word)
    ensures Distance(a, b) <= BITS
    ensures Distance(a, b) == 0 <==> a == b
    ensures Distance(a, b) == Distance(b, a)
    ensures Distance(a, c) <= Distance(a, b) + Distance(b, c)
  {
    BitsXor(a, b);
    BitsXor(b, a);
    BitsXor(b, c);
    BitsXor(a, c);
    SameBits(a, b);
    assert (Bits(a) - Bits(b)) + (Bits(b) - Bits(a)) == (Bits(b) - Bits(a)) + (Bits(a) - Bits(b));
    assert (Bits(a) - Bits(b)) + (Bits(b) - Bits(a)) == {} <==> Bits(a) == Bits(b);
    PositionsCard(BITS);
    SubsetSize(Bits(Xor(a, b)), Positions(BITS));
    SymmetricDifferences(Bits(a), Bits(b), Bits(c));
  }

  lemma OneFlipApart(v: Word, i: nat)
    requires i < BITS
    ensures Distance(v, Flip(v, i)) == 1
  {
    hide Flip, Xor, Bits;
    BitsXor(v, Flip(v, i));
    BitsFlip(v, i);
    assert Bits(Xor(v, Flip(v, i))) == {i};
  }

  // Toggling two positions changes those two.
  lemma ToggledTwice(s: set<nat>, t: set<nat>, u: set<nat>, i: nat, j: nat)
    requires t == (s - {i}) + ({i} - s) && u == (t - {j}) + ({j} - t) && i != j
    ensures (s - u) + (u - s) == {i, j}
  {
    forall k: nat ensures k in (s - u) + (u - s) <==> k in {i, j} {
      assert k in t <==> (k in s) != (k == i);
      assert k in u <==> (k in t) != (k == j);
    }
  }

  lemma TwoFlipsApart(v: Word, i: nat, j: nat)
    requires i < BITS && j < BITS && i != j
    ensures Distance(v, Flip(Flip(v, i), j)) == 2
  {
    hide Flip, Xor, Bits;
    var w := Flip(v, i);
    var x := Flip(w, j);
    BitsFlip(v, i);
    BitsFlip(w, j);
    BitsXor(v, x);
    ToggledTwice(Bits(v), Bits(w), Bits(x), i, j);
  }

  // --- Counting differing digits by clearing the lowest one --------------------------------

  // v & (v - 1) has the digits of v but its lowest one.
  ghost predicate ClearedAt(v: nat, cleared: nat, k: nat) {
    && Bit(v, k)
    && forall i: nat :: Bit(cleared, i) <==> Bit(v, i) && i != k
  }

  lemma {:induction false} ClearLowest(v: nat) returns (k: nat)
    requires v > 0
    ensures ClearedAt(v, And(v, v - 1), k)
  {
    if v % 2 == 1 {
      k := 0;
      forall i: nat { AndDigit(v, v - 1, i); }
      forall i: nat | i > 0 ensures Bit(v - 1, i) <==> Bit(v, i) {
        assert (v - 1) / 2 == v / 2;
      }
    } else {
      var h := ClearLowest(v / 2);
      k := h + 1;
      assert (v - 1) / 2 == v / 2 - 1;
      forall i: nat ensures Bit(And(v, v - 1), i) <==> Bit(v, i) && i != k {
        assert And(v, v - 1) == 2 * And(v / 2, v / 2 - 1);
        if i > 0 {
          assert Bit(And(v, v - 1), i) <==> Bit(And(v / 2, v / 2 - 1), i - 1);
        }
      }
    }
  }

  lemma ClearingDropsOne(v: Word)
    requires v > 0
    ensures And(v, v - 1) < 0x1_0000_0000
    ensures |Bits(And(v, v - 1))| == |Bits(v)| - 1
  {
    var k := ClearLowest(v);
    WordDigits(v);
    var cleared := And(v, v - 1);
    assert DigitsBelow(cleared, BITS);
    WordDigits(cleared);
    assert Bits(cleared) == Bits(v) - {k};
  }

  /** The bit-clearing loop terminates and counts the differing digits. */
  method CalculateDistance(hashvalue1: Word, hashvalue2: Word) returns (same: nat)
    ensures same == Distance(hashvalue1, hashvalue2)
  {
    same := 0;
    var bitvalue: Word := XorWord(hashvalue1, hashvalue2);
    while bitvalue != 0
      invariant same + |Bits(bitvalue)| == Distance(hashvalue1, hashvalue2)
      decreases |Bits(bitvalue)|
    {
      ClearingDropsOne(bitvalue);
      same := same + 1;
      bitvalue := And(bitvalue, bitvalue - 1);
    }
    NoBits(0);
  }

  method FlipByTable(value: Word, i: nat) returns (v: Word)
    requires i < BITS
    ensures v == Flip(value, i)
    ensures Bits(v) == (Bits(value) - {i}) + ({i} - Bits(value))
  {
    XorArrIsPow2(i);
    BitsFlip(value, i);
    v := XorWord(value, XorArr(i));
  }
}
