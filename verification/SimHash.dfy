/** Word hashes and the fingerprint of a post: the bitwise strict majority of its words' hashes. */
module SimHash {
  import opened Words
  import opened Sequences

  type Byte = b: nat | b < 256

  const MODULUS: nat := 0x1_0000_0000
  const B: nat := 378551
  const A: nat := 63689

  // A plain char is signed: bytes from 128 on extend to 32 bits with ones.
  function Extend(b: Byte): Word {
    if b < 128 then b else b + 0xFFFF_FF00
  }

  function Times(x: Word, y: Word): Word {
    (x * y) % MODULUS
  }

  function Plus(x: Word, y: Word): Word {
    (x + y) % MODULUS
  }

  // The characters of a C string: those before the first zero byte.
  function CString(str: seq<Byte>): seq<Byte> {
    if |str| == 0 || str[0] == 0 then [] else [str[0]] + CString(str[1..])
  }

  // The multiplier after n characters.
  function Multiplier(n: nat): Word {
    if n == 0 then A else Times(Multiplier(n - 1), B)
  }

  // The unmasked hash of a sequence of nonzero characters.
  function Polynomial(s: seq<Byte>): Word {
    if |s| == 0 then 0
    else Plus(Times(Polynomial(s[..|s| - 1]), Multiplier(|s| - 1)), Extend(s[|s| - 1]))
  }

  lemma {:induction false} CStringPrefix(str: seq<Byte>, n: nat)
    requires n <= |str| && forall k :: 0 <= k < n ==> str[k] != 0
    requires n < |str| ==> str[n] == 0
    ensures CString(str) == str[..n]
  {
    if n == 0 {
    } else {
      CStringPrefix(str[1..], n - 1);
      assert str[..n] == [str[0]] + str[1..][..n - 1];
    }
  }

  // The 31 lowest digits.
  function LowDigits(v: Word): (r: Word)
    ensures r < 0x8000_0000
  {
    MaskedBelow(v);
    And(v, 0x7FFF_FFFF)
  }

  lemma MaskedBelow(v: nat)
    ensures And(v, 0x7FFF_FFFF) < 0x8000_0000
  {
    XorArrIsPow2(BITS - 1);
    Fits(0x7FFF_FFFF, BITS - 1);
    forall i: nat | Bit(And(v, 0x7FFF_FFFF), i) ensures i < BITS - 1 {
      AndDigit(v, 0x7FFF_FFFF, i);
    }
    assert DigitsBelow(And(v, 0x7FFF_FFFF), BITS - 1);
    Fits(And(v, 0x7FFF_FFFF), BITS - 1);
  }

  function WordHash(str: seq<Byte>): Word {
    LowDigits(Polynomial(CString(str)))
  }

  method RSHash(str: seq<Byte>) returns (r: Word)
    ensures r == WordHash(str)
    ensures r < 0x8000_0000
  {
    var a: Word, hash: Word := A, 0;
    var k := 0;
    while k < |str| && str[k] != 0
      invariant 0 <= k <= |str| && forall j :: 0 <= j < k ==> str[j] != 0
      invariant a == Multiplier(k) && hash == Polynomial(str[..k])
    {
      assert str[..k + 1][..k] == str[..k];
      hash := Plus(Times(hash, a), Extend(str[k]));
      a := Times(a, B);
      k := k + 1;
    }
    CStringPrefix(str, k);
    r := LowDigits(hash);
  }

  // --- The hash in plain arithmetic --------------------------------------------------------

  const HALF: nat := 0x8000_0000

  function Power(b: nat, n: nat): nat {
    if n == 0 then 1 else Power(b, n - 1) * b
  }

  // The k lowest digits, and what is left as a multiple of 2^k.
  lemma {:induction false} MaskSplits(v: nat, k: nat) returns (q: nat)
    ensures v == And(v, Pow2(k) - 1) + Pow2(k) * q && And(v, Pow2(k) - 1) < Pow2(k)
  {
    if k == 0 {
      AndWithZero(v);
      q := v;
    } else {
      var h, p := v / 2, Pow2(k - 1);
      q := MaskSplits(h, k - 1);
      assert (Pow2(k) - 1) / 2 == p - 1 && (Pow2(k) - 1) % 2 == 1;
      assert And(v, Pow2(k) - 1) == 2 * And(h, p - 1) + v % 2;
      hide *;
      DoubledSplit(v, h, And(h, p - 1), p, q);
    }
  }

  lemma DoubledSplit(v: nat, h: nat, low: nat, p: nat, q: nat)
    requires h == v / 2 && h == low + p * q
    ensures v == 2 * low + v % 2 + (2 * p) * q
  {
    assert (2 * p) * q == 2 * (p * q);
  }

  lemma {:induction false} AndWithZero(v: nat)
    ensures And(v, 0) == 0
  {
    if v == 0 {
    } else {
      AndWithZero(v / 2);
    }
  }

  lemma LowDigitsRemain(v: Word)
    ensures LowDigits(v) == v % HALF
  {
    XorArrIsPow2(BITS - 1);
    assert XorArr(31) == HALF;
    var q := MaskSplits(v, 31);
  }

  // The multiplier without its wrap-around.
  lemma {:induction false} MultiplierIs(n: nat) returns (k: int)
    ensures Multiplier(n) == A * Power(B, n) + MODULUS * k
  {
    if n == 0 {
      k := 0;
    } else {
      var before := MultiplierIs(n - 1);
      var product := Multiplier(n - 1) * B;
      assert Power(B, n) == Power(B, n - 1) * B;
      assert product == A * Power(B, n) + MODULUS * (before * B);
      k := before * B - product / MODULUS;
    }
  }

  lemma SameRemainder(a: int, b: int, k: int)
    requires a == b + HALF * k
    ensures a % HALF == b % HALF
  {}

  lemma ProductOfSums(r: int, i: int, f: int, j: int, n: int)
    ensures (r + n * i) * (f + n * j) == r * f + n * (i * f + r * j + n * (i * j))
  {}

  // A step of the loop modulo 2^31: what was hashed is multiplied by f, which y is up to
  // wrap-around, and the character added.
  lemma StepRemains(x: Word, y: Word, f: nat, k: int, e: Word)
    requires y == f + MODULUS * k
    ensures Plus(Times(x, y), e) % HALF == ((x % HALF) * f + e) % HALF
  {
    var r, i := x % HALF, x / HALF;
    ProductOfSums(r, i, f, 2 * k, HALF);
    var sum := (x * y) % MODULUS + e;
    var multiple := i * f + r * (2 * k) + HALF * (i * (2 * k));
    assert x == r + HALF * i && y == f + HALF * (2 * k);
    WrappedSum(x * y, r * f, multiple, e);
  }

  lemma WrappedSum(p: nat, q: nat, k: int, e: Word)
    requires p == q + HALF * k
    ensures ((p % MODULUS + e) % MODULUS) % HALF == (q + e) % HALF
  {
    var sum := p % MODULUS + e;
    SameRemainder(sum % MODULUS, q + e, k - 2 * (p / MODULUS) - 2 * (sum / MODULUS));
  }

  lemma ExtendRemains(c: Byte, a: int)
    ensures (a + Extend(c)) % HALF == (a + if c < 128 then c else c - 256) % HALF
  {
    if c >= 128 {
      SameRemainder(a + Extend(c), a + c - 256, 2);
    }
  }

  /** A character multiplies the hash of those before it by 63689 times 378551 to their number, and
      is added as a signed number, modulo 2^31. */
  lemma WordHashNext(str: seq<Byte>, c: Byte, f: nat)
    requires c != 0 && forall k :: 0 <= k < |str| ==> str[k] != 0
    requires f == 63689 * Power(378551, |str|)
    ensures WordHash(str + [c]) == (WordHash(str) * f + if c < 128 then c else c - 256) % 0x8000_0000
  {
    TextEnds(str, c, []);
    MultiplierRemains(|str|, f);
    hide *;
    HashStep(str, c, Polynomial(str), Multiplier(|str|), f, Extend(c));
  }

  lemma MultiplierRemains(n: nat, f: nat)
    requires f == A * Power(B, n)
    ensures Multiplier(n) == f % MODULUS
  {
    hide Multiplier, Power;
    var k := MultiplierIs(n);
    Wrapped(Multiplier(n), f, k);
  }

  lemma Wrapped(y: Word, f: nat, k: int)
    requires y == f + MODULUS * k
    ensures y == f % MODULUS
  {}

  lemma HashStep(str: seq<Byte>, c: Byte, x: Word, y: Word, f: nat, e: Word)
    requires CString(str) == str && CString(str + [c]) == str + [c] && Polynomial(str) == x
    requires Polynomial(str + [c]) == Plus(Times(x, y), e) && y == f % MODULUS && e == Extend(c)
    ensures WordHash(str + [c]) == (WordHash(str) * f + if c < 128 then c else c - 256) % HALF
  {
    hide CString, Polynomial, LowDigits, Times, Plus, Extend;
    LowDigitsRemain(x);
    LowDigitsRemain(Plus(Times(x, y), e));
    StepRemains(x, y, f, -(f / MODULUS), e);
    ExtendRemains(c, WordHash(str) * f);
  }

  /** Nothing is hashed as 0, and a zero byte ends the text. */
  lemma WordHashEnds(str: seq<Byte>, rest: seq<Byte>)
    requires forall k :: 0 <= k < |str| ==> str[k] != 0
    ensures WordHash([]) == 0
    ensures WordHash(str + [0] + rest) == WordHash(str)
  {
    TextEnds(str, 1, rest);
    LowDigitsRemain(0);
  }

  lemma TextEnds(str: seq<Byte>, c: Byte, rest: seq<Byte>)
    requires c != 0 && forall k :: 0 <= k < |str| ==> str[k] != 0
    ensures CString([]) == [] && Polynomial([]) == 0
    ensures CString(str) == str && CString(str + [c]) == str + [c] && CString(str + [0] + rest) == str
    ensures Polynomial(str + [c]) == Plus(Times(Polynomial(str), Multiplier(|str|)), Extend(c))
  {
    var next := str + [c];
    CStringPrefix(str, |str|);
    CStringPrefix(next, |next|);
    CStringPrefix(str + [0] + rest, |str|);
    assert (str + [0] + rest)[..|str|] == str && str[..|str|] == str && next[..|next|] == next;
    assert next[..|next| - 1] == str;
  }

  // --- Majority ----------------------------------------------------------------------------

  // How many of the hashes have digit i set.
  function Ones(hashes: seq<Word>, i: nat): nat {
    if |hashes| == 0 then 0
    else Ones(hashes[..|hashes| - 1], i) + if Bit(hashes[|hashes| - 1], i) then 1 else 0
  }

  // The positions whose hash has the digit.
  function HavingDigit(hashes: seq<Word>, i: nat): set<nat> {
    set k: nat | k < |hashes| && Bit(hashes[k], i)
  }

  /** The count is the number of those positions. */
  lemma {:induction false} OnesIsCount(hashes: seq<Word>, i: nat)
    ensures Ones(hashes, i) == |HavingDigit(hashes, i)|
  {
    if |hashes| == 0 {
      assert HavingDigit(hashes, i) == {};
    } else {
      var n, front := |hashes| - 1, hashes[..|hashes| - 1];
      OnesIsCount(front, i);
      assert HavingDigit(hashes, i) == HavingDigit(front, i) + if Bit(hashes[n], i) then {n} else {};
    }
  }

  // Digit i of h is set exactly when more than half of the hashes have it.
  ghost predicate IsMajority(h: Word, hashes: seq<Word>) {
    forall i: nat :: i < BITS ==> (Bit(h, i) <==> 2 * Ones(hashes, i) > |hashes|)
  }

  lemma WithDigit(h: nat, i: nat)
    requires i < BITS && h < 0x1_0000_0000
    ensures Or(h, Pow2(i)) < 0x1_0000_0000
    ensures forall j: nat :: Bit(Or(h, Pow2(i)), j) <==> Bit(h, j) || j == i
  {
    WordDigits(h);
    forall j: nat ensures Bit(Or(h, Pow2(i)), j) <==> Bit(h, j) || j == i {
      OrDigit(h, Pow2(i), j);
      Pow2Digit(i, j);
    }
    assert DigitsBelow(Or(h, Pow2(i)), BITS);
    WordDigits(Or(h, Pow2(i)));
  }

  // The mask of a position tells whether its digit is set.
  lemma MaskTests(v: Word, i: nat)
    requires i < BITS
    ensures And(Pow2(i), v) != 0 <==> Bit(v, i)
  {
    if And(Pow2(i), v) != 0 {
      var j := TopDigit(And(Pow2(i), v));
      AndDigit(Pow2(i), v, j);
      Pow2Digit(i, j);
    }
    AndDigit(Pow2(i), v, i);
    Pow2Digit(i, i);
    ZeroDigits(i);
  }

  method Majority(hashes: seq<Word>) returns (hashvalue: Word)
    ensures IsMajority(hashvalue, hashes)
  {
    hashvalue := 0;
    forall j: nat { ZeroDigits(j); }
    for i := 0 to BITS
      invariant forall j: nat :: j < i ==> (Bit(hashvalue, j) <==> 2 * Ones(hashes, j) > |hashes|)
      invariant forall j: nat :: j >= i ==> !Bit(hashvalue, j)
    {
      var sum: int := 0;
      for k := 0 to |hashes|
        invariant sum == 2 * Ones(hashes[..k], i) - k
      {
        assert hashes[..k + 1][..k] == hashes[..k];
        MaskTests(hashes[k], i);
        if And(Pow2(i), hashes[k]) != 0 {
          sum := sum + 1;
        } else {
          sum := sum - 1;
        }
      }
      assert hashes[..|hashes|] == hashes;
      if sum > 0 {
        WithDigit(hashvalue, i);
        hashvalue := Or(hashvalue, Pow2(i));
      }
    }
  }

  function HashesOf(words: seq<seq<Byte>>): (hashes: seq<Word>)
    ensures |hashes| == |words|
  {
    seq(|words|, k requires 0 <= k < |words| => WordHash(words[k]))
  }

  method BlogHashAfterParser(words: seq<seq<Byte>>) returns (hashvalue: Word)
    ensures IsMajority(hashvalue, HashesOf(words))
    ensures hashvalue < 0x8000_0000
  {
    var hashword: seq<Word> := [];
    for k := 0 to |words|
      invariant hashword == HashesOf(words[..k])
    {
      var res := RSHash(words[k]);
      hashword := hashword + [res];
    }
    assert words[..|words|] == words;
    hashvalue := Majority(hashword);
    HighDigitClear(hashvalue, hashword);
  }

  /** Word hashes have 31 digits, so the top digit of a fingerprint is never set. */
  lemma HighDigitClear(h: Word, hashes: seq<Word>)
    requires IsMajority(h, hashes) && forall k :: 0 <= k < |hashes| ==> hashes[k] < 0x8000_0000
    ensures h < 0x8000_0000
  {
    NoneHigh(hashes);
    XorArrIsPow2(BITS - 1);
    WordDigits(h);
    assert !Bit(h, BITS - 1);
    assert DigitsBelow(h, BITS - 1);
    Fits(h, BITS - 1);
  }

  lemma {:induction false} NoneHigh(hashes: seq<Word>)
    requires forall k :: 0 <= k < |hashes| ==> hashes[k] < 0x8000_0000
    ensures Ones(hashes, BITS - 1) == 0
  {
    if |hashes| == 0 {
    } else {
      NoneHigh(hashes[..|hashes| - 1]);
      XorArrIsPow2(BITS - 1);
      Fits(hashes[|hashes| - 1], BITS - 1);
    }
  }

  // --- Invariance --------------------------------------------------------------------------

  lemma {:induction false} OnesConcat(s: seq<Word>, t: seq<Word>, i: nat)
    ensures Ones(s + t, i) == Ones(s, i) + Ones(t, i)
  {
    if |t| == 0 {
      assert s + t == s;
    } else {
      OnesConcat(s, t[..|t| - 1], i);
      assert (s + t)[..|s + t| - 1] == s + t[..|t| - 1];
    }
  }

  lemma {:induction false} OnesPermuted(s: seq<Word>, t: seq<Word>, i: nat)
    requires multiset(s) == multiset(t)
    ensures Ones(s, i) == Ones(t, i) && |s| == |t|
  {
    if |s| > 0 {
      var k := LocateLast(s, t);
      OnesPermuted(Front(s), t[..k] + t[k + 1..], i);
      OnesConcat(t[..k], t[k + 1..], i);
      OnesConcat(t[..k] + [Last(s)], t[k + 1..], i);
      OnesConcat(t[..k], [Last(s)], i);
    } else {
      assert |s| == |multiset(s)| && |t| == |multiset(t)|;
    }
  }

  // A majority is determined by the hashes as a multiset, and not changed by doubling them.
  lemma MajorityInvariant(h: Word, hashes: seq<Word>, h': Word, hashes': seq<Word>)
    requires IsMajority(h, hashes) && IsMajority(h', hashes')
    requires multiset(hashes') == multiset(hashes) || hashes' == hashes + hashes
    ensures h == h'
  {
    forall i: nat | i < BITS
      ensures Bit(h, i) <==> Bit(h', i)
    {
      if multiset(hashes') == multiset(hashes) {
        OnesPermuted(hashes, hashes', i);
      } else {
        OnesConcat(hashes, hashes, i);
      }
    }
    assert Bits(h) == Bits(h');
    SameBits(h, h');
  }

  lemma HashesConcat(s: seq<seq<Byte>>, t: seq<seq<Byte>>)
    ensures HashesOf(s + t) == HashesOf(s) + HashesOf(t)
  {}

  /** Reordering the words of a post, or writing the whole list twice, gives the same fingerprint. */
  lemma FingerprintInvariant(h: Word, words: seq<seq<Byte>>, h': Word, words': seq<seq<Byte>>)
    requires IsMajority(h, HashesOf(words)) && IsMajority(h', HashesOf(words'))
    requires multiset(words') == multiset(words) || words' == words + words
    ensures h == h'
  {
    if multiset(words') == multiset(words) {
      MapPermuted(WordHash, words', words, HashesOf(words'), HashesOf(words));
    } else {
      HashesConcat(words, words);
    }
    MajorityInvariant(h, HashesOf(words), h', HashesOf(words'));
  }
}
