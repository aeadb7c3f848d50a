/** Feature vectors: dot products, the cosine, and means. */
module Vectors {
  import opened Sequences
  import opened Sums

  type Features = seq<real>

  // What the library's square root is taken to be.
  ghost predicate IsSquareRoot(sqrt: real -> real) {
    forall r: real :: r >= 0.0 ==> sqrt(r) >= 0.0 && sqrt(r) * sqrt(r) == r
  }

  predicate NonNegative(x: Features) {
    forall i :: 0 <= i < |x| ==> x[i] >= 0.0
  }

  function Dot(x: Features, y: Features): real
    requires |x| == |y|
  {
    if |x| == 0 then 0.0 else Dot(Front(x), Front(y)) + Last(x) * Last(y)
  }

  function SumOfSquares(x: Features): real {
    Dot(x, x)
  }

  method CalculateSumOfSquares(values: Features) returns (sum: real)
    ensures sum == SumOfSquares(values)
  {
    sum := 0.0;
    for k := 0 to |values|
      invariant sum == SumOfSquares(values[..k])
    {
      assert Front(values[..k + 1]) == values[..k];
      sum := sum + values[k] * values[k];
    }
    assert values[..|values|] == values;
  }

  // --- Real arithmetic ---------------------------------------------------------------------

  lemma SquareNonNegative(a: real)
    ensures a * a >= 0.0
  {}

  lemma ZeroFactor(a: real, b: real)
    requires a * b == 0.0
    ensures a == 0.0 || b == 0.0
  {}

  lemma PositiveProduct(a: real, b: real)
    requires a > 0.0 && b > 0.0
    ensures a * b > 0.0
  {}

  lemma PositiveFactor(a: real, b: real)
    requires a > 0.0 && a * b >= 0.0
    ensures b >= 0.0
  {}

  lemma SquareLess(a: real, b: real)
    requires b >= 0.0 && a * a <= b * b
    ensures a <= b
  {
    assert a * a - b * b == (a - b) * (a + b);
    if a > b {
      PositiveProduct(a - b, a + b);
    }
  }

  // One coordinate of the Cauchy-Schwarz inequality.
  lemma CauchySchwarzStep(t: real, x: real, y: real, a: real, b: real)
    requires x >= 0.0 && y >= 0.0 && t * t <= x * y
    ensures (t + a * b) * (t + a * b) <= (x + a * a) * (y + b * b)
  {
    var cross := x * (b * b) + y * (a * a) - 2.0 * (t * (a * b));
    assert cross >= 0.0 by {
      if x == 0.0 {
        SquareNonNegative(t);
        ZeroFactor(t, t);
        SquareNonNegative(a);
        assert y * (a * a) >= 0.0;
      } else {
        CrossTerm(t, x, y, a, b);
      }
    }
    ExpandSquare(t, a * b);
    ExpandProduct(x, a * a, y, b * b);
    assert (a * b) * (a * b) == (a * a) * (b * b);
  }

  lemma ExpandSquare(t: real, u: real)
    ensures (t + u) * (t + u) == t * t + 2.0 * (t * u) + u * u
  {}

  lemma ExpandProduct(x: real, u: real, y: real, v: real)
    ensures (x + u) * (y + v) == x * y + x * v + y * u + u * v
  {}

  lemma CrossTerm(t: real, x: real, y: real, a: real, b: real)
    requires x > 0.0 && t * t <= x * y
    ensures x * (b * b) + y * (a * a) - 2.0 * (t * (a * b)) >= 0.0
  {
    var cross := x * (b * b) + y * (a * a) - 2.0 * (t * (a * b));
    var root := x * b - t * a;
    SquareNonNegative(root);
    SquareNonNegative(a);
    var slack := (x * y - t * t) * (a * a);
    assert slack >= 0.0;
    assert x * cross == root * root + slack by {
      ExpandRoot(t, x, y, a, b);
    }
    PositiveFactor(x, cross);
  }

  lemma ExpandRoot(t: real, x: real, y: real, a: real, b: real)
    ensures x * (x * (b * b) + y * (a * a) - 2.0 * (t * (a * b)))
         == (x * b - t * a) * (x * b - t * a) + (x * y - t * t) * (a * a)
  {}

  // --- The Cauchy-Schwarz inequality -------------------------------------------------------

  lemma {:induction false} SumOfSquaresNonNegative(x: Features)
    ensures SumOfSquares(x) >= 0.0
  {
    if |x| > 0 {
      SumOfSquaresNonNegative(Front(x));
      SquareNonNegative(Last(x));
    }
  }

  lemma {:induction false} CauchySchwarz(x: Features, y: Features)
    requires |x| == |y|
    ensures Dot(x, y) * Dot(x, y) <= SumOfSquares(x) * SumOfSquares(y)
  {
    if |x| == 0 {
    } else {
      CauchySchwarz(Front(x), Front(y));
      SumOfSquaresNonNegative(Front(x));
      SumOfSquaresNonNegative(Front(y));
      CauchySchwarzStep(Dot(Front(x), Front(y)), SumOfSquares(Front(x)), SumOfSquares(Front(y)), Last(x), Last(y));
    }
  }

  lemma {:induction false} DotSymmetric(x: Features, y: Features)
    requires |x| == |y|
    ensures Dot(x, y) == Dot(y, x)
  {
    if |x| == 0 {
    } else {
      DotSymmetric(Front(x), Front(y));
    }
  }

  lemma {:induction false} DotNonNegative(x: Features, y: Features)
    requires |x| == |y| && NonNegative(x) && NonNegative(y)
    ensures Dot(x, y) >= 0.0
  {
    if |x| == 0 {
    } else {
      DotNonNegative(Front(x), Front(y));
      assert Last(x) * Last(y) >= 0.0;
    }
  }

  // The dot product of single coordinates is their product, and joined vectors add theirs.
  lemma {:induction false} DotConcat(x: Features, y: Features, u: Features, v: Features, a: real, b: real)
    requires |x| == |y| && |u| == |v|
    ensures Dot([a], [b]) == a * b
    ensures Dot(x + u, y + v) == Dot(x, y) + Dot(u, v)
  {
    assert Front([a]) == [] && Front([b]) == [];
    if |u| == 0 {
      assert x + u == x && y + v == y;
    } else {
      DotConcat(x, y, Front(u), Front(v), a, b);
      assert Front(x + u) == x + Front(u) && Front(y + v) == y + Front(v);
      assert Last(x + u) == Last(u) && Last(y + v) == Last(v);
    }
  }

  lemma {:induction false} SquaresOfDifference(x: Features, y: Features)
    requires |x| == |y|
    ensures SumOfSquares(Difference(x, y)) == SumOfSquares(x) + SumOfSquares(y) - 2.0 * Dot(x, y)
  {
    if |x| == 0 {
    } else {
      SquaresOfDifference(Front(x), Front(y));
      assert Front(Difference(x, y)) == Difference(Front(x), Front(y));
      SquareOfDifference(Last(x), Last(y));
    }
  }

  lemma SquareOfDifference(a: real, b: real)
    ensures (a - b) * (a - b) == a * a + b * b - 2.0 * (a * b)
  {}

  // --- The cosine --------------------------------------------------------------------------

  lemma RootPositive(sqrt: real -> real, r: real)
    requires IsSquareRoot(sqrt) && r > 0.0
    ensures sqrt(r) > 0.0
  {
    assert sqrt(r) * sqrt(r) == r;
  }

  function Cosine(sqrt: real -> real, x: Features, y: Features): real
    requires IsSquareRoot(sqrt)
  {
    if |x| != |y| || SumOfSquares(x) == 0.0 || SumOfSquares(y) == 0.0 then 0.0
    else
      SumOfSquaresNonNegative(x);
      SumOfSquaresNonNegative(y);
      RootPositive(sqrt, SumOfSquares(x));
      RootPositive(sqrt, SumOfSquares(y));
      Dot(x, y) / (sqrt(SumOfSquares(x)) * sqrt(SumOfSquares(y)))
  }

  type Measure = (Features, Features) -> real

  function CosineWith(sqrt: real -> real): Measure
    requires IsSquareRoot(sqrt)
  {
    (x, y) => Cosine(sqrt, x, y)
  }

  method EvaluateCosine(sqrt: real -> real, x: Features, y: Features) returns (r: real)
    requires IsSquareRoot(sqrt)
    ensures r == Cosine(sqrt, x, y)
  {
    if |x| != |y| {
      return 0.0;
    }
    var top, bottomX, bottomY := 0.0, 0.0, 0.0;
    for k := 0 to |x|
      invariant top == Dot(x[..k], y[..k])
      invariant bottomX == SumOfSquares(x[..k]) && bottomY == SumOfSquares(y[..k])
    {
      assert Front(x[..k + 1]) == x[..k] && Front(y[..k + 1]) == y[..k];
      top := top + x[k] * y[k];
      bottomX := bottomX + x[k] * x[k];
      bottomY := bottomY + y[k] * y[k];
    }
    assert x[..|x|] == x && y[..|x|] == y;
    assert top == Dot(x, y) && bottomX == SumOfSquares(x) && bottomY == SumOfSquares(y);
    hide Dot, SumOfSquares;
    if bottomX == 0.0 || bottomY == 0.0 {
      return 0.0;
    }
    SumOfSquaresNonNegative(x);
    SumOfSquaresNonNegative(y);
    RootPositive(sqrt, bottomX);
    RootPositive(sqrt, bottomY);
    r := top / (sqrt(bottomX) * sqrt(bottomY));
  }

  lemma ProductCommutes(a: real, b: real)
    ensures a * b == b * a
  {}

  lemma CosineSymmetric(sqrt: real -> real, x: Features, y: Features)
    requires IsSquareRoot(sqrt)
    ensures Cosine(sqrt, x, y) == Cosine(sqrt, y, x)
  {
    if |x| == |y| {
      DotSymmetric(x, y);
      ProductCommutes(sqrt(SumOfSquares(x)), sqrt(SumOfSquares(y)));
    }
  }

  lemma Quotient(top: real, s: real, t: real, x: real, y: real)
    requires s > 0.0 && t > 0.0 && s * s == x && t * t == y && top * top <= x * y
    ensures s * t > 0.0 && top / (s * t) <= 1.0
  {
    assert s * t > 0.0;
    assert (s * t) * (s * t) == (s * s) * (t * t);
    SquareLess(top, s * t);
    DividedByLarger(top, s * t);
  }

  lemma DividedByLarger(a: real, b: real)
    requires b > 0.0 && a <= b
    ensures a / b <= 1.0
  {}

  lemma QuotientNonNegative(a: real, b: real)
    requires b > 0.0 && a >= 0.0
    ensures a / b >= 0.0
  {}

  lemma CosineAtMostOne(sqrt: real -> real, x: Features, y: Features)
    requires IsSquareRoot(sqrt)
    ensures Cosine(sqrt, x, y) <= 1.0
  {
    if |x| == |y| && SumOfSquares(x) != 0.0 && SumOfSquares(y) != 0.0 {
      SumOfSquaresNonNegative(x);
      SumOfSquaresNonNegative(y);
      RootPositive(sqrt, SumOfSquares(x));
      RootPositive(sqrt, SumOfSquares(y));
      CauchySchwarz(x, y);
      var s, t := sqrt(SumOfSquares(x)), sqrt(SumOfSquares(y));
      Quotient(Dot(x, y), s, t, SumOfSquares(x), SumOfSquares(y));
      assert Cosine(sqrt, x, y) == Dot(x, y) / (s * t);
    }
  }

  lemma CosineNonNegative(sqrt: real -> real, x: Features, y: Features)
    requires IsSquareRoot(sqrt) && NonNegative(x) && NonNegative(y)
    ensures Cosine(sqrt, x, y) >= 0.0
  {
    if |x| == |y| && SumOfSquares(x) != 0.0 && SumOfSquares(y) != 0.0 {
      SumOfSquaresNonNegative(x);
      SumOfSquaresNonNegative(y);
      RootPositive(sqrt, SumOfSquares(x));
      RootPositive(sqrt, SumOfSquares(y));
      DotNonNegative(x, y);
      PositiveProduct(sqrt(SumOfSquares(x)), sqrt(SumOfSquares(y)));
      QuotientNonNegative(Dot(x, y), sqrt(SumOfSquares(x)) * sqrt(SumOfSquares(y)));
    }
  }

  lemma DotWithZero(x: Features, y: Features)
    requires |x| == |y| && (SumOfSquares(x) == 0.0 || SumOfSquares(y) == 0.0)
    ensures Dot(x, y) == 0.0
  {
    hide Dot, SumOfSquares;
    CauchySchwarz(x, y);
    SquareNonNegative(Dot(x, y));
    ZeroFactor(Dot(x, y), Dot(x, y));
  }

  // The lengths and the cosine give the dot product back.
  lemma CosineTimesLengths(sqrt: real -> real, x: Features, y: Features)
    requires IsSquareRoot(sqrt) && |x| == |y|
    ensures sqrt(SumOfSquares(x)) * sqrt(SumOfSquares(y)) * Cosine(sqrt, x, y) == Dot(x, y)
  {
    SumOfSquaresNonNegative(x);
    SumOfSquaresNonNegative(y);
    var s, t := sqrt(SumOfSquares(x)), sqrt(SumOfSquares(y));
    hide Dot, SumOfSquares;
    if SumOfSquares(x) == 0.0 || SumOfSquares(y) == 0.0 {
      DotWithZero(x, y);
    } else {
      RootPositive(sqrt, SumOfSquares(x));
      RootPositive(sqrt, SumOfSquares(y));
      PositiveProduct(s, t);
      TimesQuotient(Dot(x, y), s * t);
    }
  }

  /** The law of cosines. */
  lemma LawOfCosines(sqrt: real -> real, x: Features, y: Features)
    requires IsSquareRoot(sqrt) && |x| == |y|
    ensures SumOfSquares(Difference(x, y)) == SumOfSquares(x) + SumOfSquares(y)
              - 2.0 * (sqrt(SumOfSquares(x)) * sqrt(SumOfSquares(y)) * Cosine(sqrt, x, y))
  {
    hide Cosine, Dot, SumOfSquares;
    SquaresOfDifference(x, y);
    CosineTimesLengths(sqrt, x, y);
  }

  lemma CosineOfItself(sqrt: real -> real, x: Features)
    requires IsSquareRoot(sqrt) && SumOfSquares(x) != 0.0
    ensures Cosine(sqrt, x, x) == 1.0
  {
    SumOfSquaresNonNegative(x);
    assert sqrt(SumOfSquares(x)) * sqrt(SumOfSquares(x)) == SumOfSquares(x);
    OverItself(SumOfSquares(x));
  }

  lemma OverItself(r: real)
    requires r != 0.0
    ensures r / r == 1.0
  {}

  /** The cosine is symmetric, never exceeds 1, is not negative on vectors without negative
      coordinates, and is 1 between a vector that is not zero and itself. */
  lemma CosineBounds(sqrt: real -> real, x: Features, y: Features)
    requires IsSquareRoot(sqrt)
    ensures Cosine(sqrt, x, y) == Cosine(sqrt, y, x)
    ensures Cosine(sqrt, x, y) <= 1.0
    ensures NonNegative(x) && NonNegative(y) ==> Cosine(sqrt, x, y) >= 0.0
    ensures SumOfSquares(x) != 0.0 ==> Cosine(sqrt, x, x) == 1.0
  {
    CosineSymmetric(sqrt, x, y);
    CosineAtMostOne(sqrt, x, y);
    if NonNegative(x) && NonNegative(y) { CosineNonNegative(sqrt, x, y); }
    if SumOfSquares(x) != 0.0 { CosineOfItself(sqrt, x); }
  }

  // --- Means -------------------------------------------------------------------------------

  ghost predicate OfDimension(vs: seq<Features>, dimension: nat) {
    forall k :: 0 <= k < |vs| ==> |vs[k]| == dimension
  }

  // The sum of one coordinate.
  function CoordinateSum(vs: seq<Features>, i: nat): real
    requires forall k :: 0 <= k < |vs| ==> i < |vs[k]|
  {
    if |vs| == 0 then 0.0 else CoordinateSum(Front(vs), i) + Last(vs)[i]
  }

  function Mean(vs: seq<Features>, dimension: nat): (m: Features)
    requires |vs| > 0 && OfDimension(vs, dimension)
    ensures |m| == dimension
  {
    seq(dimension, i requires 0 <= i < dimension => CoordinateSum(vs, i) / |vs| as real)
  }

  method CalculateMean(vs: seq<Features>, dimension: nat) returns (mean: Features)
    requires |vs| > 0 && OfDimension(vs, dimension)
    ensures mean == Mean(vs, dimension)
  {
    mean := seq(dimension, _ => 0.0);
    for k := 0 to |vs|
      invariant |mean| == dimension
      invariant forall i :: 0 <= i < dimension ==> mean[i] == CoordinateSum(vs[..k], i)
    {
      assert Front(vs[..k + 1]) == vs[..k];
      for j := 0 to dimension
        invariant |mean| == dimension
        invariant forall i :: 0 <= i < j ==> mean[i] == CoordinateSum(vs[..k + 1], i)
        invariant forall i :: j <= i < dimension ==> mean[i] == CoordinateSum(vs[..k], i)
      {
        mean := mean[j := mean[j] + vs[k][j]];
      }
    }
    assert vs[..|vs|] == vs;
    for j := 0 to dimension
      invariant |mean| == dimension
      invariant forall i :: 0 <= i < j ==> mean[i] == CoordinateSum(vs, i) / |vs| as real
      invariant forall i :: j <= i < dimension ==> mean[i] == CoordinateSum(vs, i)
    {
      mean := mean[j := mean[j] / |vs| as real];
    }
  }

  lemma {:induction false} CoordinateSumConcat(u: seq<Features>, v: seq<Features>, i: nat)
    requires forall k :: 0 <= k < |u| ==> i < |u[k]|
    requires forall k :: 0 <= k < |v| ==> i < |v[k]|
    ensures CoordinateSum(u + v, i) == CoordinateSum(u, i) + CoordinateSum(v, i)
  {
    if |v| == 0 {
      assert u + v == u;
    } else {
      CoordinateSumConcat(u, Front(v), i);
      assert Front(u + v) == u + Front(v) && Last(u + v) == Last(v);
    }
  }

  lemma CoordinateSumMiddle(before: seq<Features>, x: Features, after: seq<Features>, i: nat)
    requires i < |x|
    requires forall k :: 0 <= k < |before| ==> i < |before[k]|
    requires forall k :: 0 <= k < |after| ==> i < |after[k]|
    ensures CoordinateSum(before + [x] + after, i) == CoordinateSum(before + after, i) + x[i]
  {
    assert Front([x]) == [];
    assert CoordinateSum([x], i) == x[i];
    hide CoordinateSum;
    CoordinateSumConcat(before, after, i);
    CoordinateSumConcat(before + [x], after, i);
    CoordinateSumConcat(before, [x], i);
  }

  lemma {:induction false} CoordinateSumPermuted(u: seq<Features>, v: seq<Features>, i: nat)
    requires multiset(u) == multiset(v)
    requires forall k :: 0 <= k < |u| ==> i < |u[k]|
    requires forall k :: 0 <= k < |v| ==> i < |v[k]|
    ensures CoordinateSum(u, i) == CoordinateSum(v, i) && |u| == |v|
  {
    assert |u| == |multiset(u)| && |v| == |multiset(v)|;
    if |u| == 0 {
    } else {
      var k := LocateLast(u, v);
      CoordinateSumPermuted(Front(u), v[..k] + v[k + 1..], i);
      CoordinateSumMiddle(v[..k], Last(u), v[k + 1..], i);
    }
  }

  lemma MeanPermuted(u: seq<Features>, v: seq<Features>, dimension: nat)
    requires |u| > 0 && OfDimension(u, dimension) && OfDimension(v, dimension) && multiset(u) == multiset(v)
    ensures |v| > 0 && Mean(u, dimension) == Mean(v, dimension)
  {
    assert |u| == |multiset(u)| && |v| == |multiset(v)|;
    forall i: nat | i < dimension { CoordinateSumPermuted(u, v, i); }
  }

  lemma MeanOfOne(f: Features)
    ensures Mean([f], |f|) == f
  {
    forall i: nat | i < |f| ensures Mean([f], |f|)[i] == f[i] {
      assert CoordinateSum([f], i) == CoordinateSum(Front([f]), i) + f[i] && Front([f]) == [];
    }
  }

  lemma {:induction false} CoordinateSumNonNegative(vs: seq<Features>, i: nat)
    requires forall k :: 0 <= k < |vs| ==> i < |vs[k]| && NonNegative(vs[k])
    ensures CoordinateSum(vs, i) >= 0.0
  {
    if |vs| == 0 {
    } else {
      CoordinateSumNonNegative(Front(vs), i);
    }
  }

  lemma MeanNonNegative(vs: seq<Features>, dimension: nat)
    requires |vs| > 0 && OfDimension(vs, dimension) && forall k :: 0 <= k < |vs| ==> NonNegative(vs[k])
    ensures NonNegative(Mean(vs, dimension))
  {
    forall i | 0 <= i < dimension ensures Mean(vs, dimension)[i] >= 0.0 {
      CoordinateSumNonNegative(vs, i);
      QuotientNonNegative(CoordinateSum(vs, i), |vs| as real);
    }
  }

  // --- Joining two groups ------------------------------------------------------------------

  // The mean of p numbers with mean x and q numbers with mean y.
  function Weighted(p: nat, x: real, q: nat, y: real): real
    requires p > 0 && q > 0
  {
    (p as real * x + q as real * y) / (p + q) as real
  }

  // The mean of p vectors with mean a and q vectors with mean b.
  function Combine(p: nat, a: Features, q: nat, b: Features): (c: Features)
    requires p > 0 && q > 0 && |a| == |b|
    ensures |c| == |a|
  {
    seq(|a|, i requires 0 <= i < |a| => Weighted(p, a[i], q, b[i]))
  }

  function Difference(a: Features, b: Features): (d: Features)
    requires |a| == |b|
    ensures |d| == |a|
  {
    seq(|a|, i requires 0 <= i < |a| => a[i] - b[i])
  }

  lemma TimesQuotient(s: real, p: real)
    requires p != 0.0
    ensures p * (s / p) == s
  {}

  lemma TimesOfQuotient(n: nat, s: real)
    requires n > 0
    ensures Times(n, s / n as real) == s
  {
    TimesIsProduct(n, s / n as real);
    TimesQuotient(s, n as real);
  }

  lemma CombinedSum(su: real, sv: real, p: real, q: real)
    requires p > 0.0 && q > 0.0
    ensures (p * (su / p) + q * (sv / q)) / (p + q) == (su + sv) / (p + q)
  {
    TimesQuotient(su, p);
    TimesQuotient(sv, q);
  }

  lemma WeightedSum(su: real, sv: real, p: nat, q: nat)
    requires p > 0 && q > 0
    ensures Weighted(p, su / p as real, q, sv / q as real) == (su + sv) / (p + q) as real
  {
    assert (p + q) as real == p as real + q as real;
    CombinedSum(su, sv, p as real, q as real);
  }

  lemma MeanConcatAt(u: seq<Features>, v: seq<Features>, dimension: nat, i: nat)
    requires |u| > 0 && |v| > 0 && OfDimension(u, dimension) && OfDimension(v, dimension) && i < dimension
    ensures OfDimension(u + v, dimension)
    ensures Mean(u + v, dimension)[i] == Combine(|u|, Mean(u, dimension), |v|, Mean(v, dimension))[i]
  {
    CoordinateSumConcat(u, v, i);
    WeightedSum(CoordinateSum(u, i), CoordinateSum(v, i), |u|, |v|);
    assert Mean(u + v, dimension)[i] == (CoordinateSum(u, i) + CoordinateSum(v, i)) / (|u| + |v|) as real;
    assert Combine(|u|, Mean(u, dimension), |v|, Mean(v, dimension))[i]
      == Weighted(|u|, CoordinateSum(u, i) / |u| as real, |v|, CoordinateSum(v, i) / |v| as real);
  }

  lemma MeanConcat(u: seq<Features>, v: seq<Features>, dimension: nat)
    requires |u| > 0 && |v| > 0 && OfDimension(u, dimension) && OfDimension(v, dimension)
    ensures OfDimension(u + v, dimension)
    ensures Mean(u + v, dimension) == Combine(|u|, Mean(u, dimension), |v|, Mean(v, dimension))
  {
    forall i: nat | i < dimension { MeanConcatAt(u, v, dimension, i); }
  }

  // One coordinate: the weighted squares minus the square of the weighted mean c.
  lemma WardCoordinate(p: real, x: real, q: real, y: real, c: real, h: real)
    requires p > 0.0 && q > 0.0 && c == (p * x + q * y) / (p + q) && h == p * q / (p + q)
    ensures p * (x * x) + q * (y * y) == (p + q) * (c * c) + h * ((x - y) * (x - y))
  {
    var s := p + q;
    TimesQuotient(p * x + q * y, s);
    TimesQuotient(p * q, s);
    WardExpanded(p, x, q, y, s, c, h);
    CancelFactor(s, p * (x * x) + q * (y * y), s * (c * c) + h * ((x - y) * (x - y)));
  }

  lemma CancelFactor(s: real, a: real, b: real)
    requires s != 0.0 && s * a == s * b
    ensures a == b
  {
    assert s * (a - b) == 0.0;
    ZeroFactor(s, a - b);
  }

  lemma WardExpanded(p: real, x: real, q: real, y: real, s: real, c: real, h: real)
    requires s == p + q && s * c == p * x + q * y && s * h == p * q
    ensures s * (p * (x * x) + q * (y * y)) == s * (s * (c * c) + h * ((x - y) * (x - y)))
  {
    var d := (x - y) * (x - y);
    calc {
      s * (s * (c * c) + h * d);
      (s * c) * (s * c) + (s * h) * d;
      (p * x + q * y) * (p * x + q * y) + (p * q) * d;
      { WardPolynomial(p, x, q, y); }
      (p + q) * (p * (x * x) + q * (y * y));
    }
  }

  lemma WardPolynomial(p: real, x: real, q: real, y: real)
    ensures (p * x + q * y) * (p * x + q * y) + (p * q) * ((x - y) * (x - y)) == (p + q) * (p * (x * x) + q * (y * y))
  {}

  lemma WardCoordinateTimes(p: nat, x: real, xx: real, q: nat, y: real, yy: real, z: real,
          zz: real, w: real)
    requires p > 0 && q > 0 && z == Weighted(p, x, q, y)
    requires xx == x * x && yy == y * y && zz == z * z && w == CoordinateDistance(p, x, q, y)
    ensures Times(p, xx) + Times(q, yy) == Times(p + q, zz) + w
  {
    WardCoordinate(p as real, x, q as real, y, z, Share(p, q));
    TimesIsProduct(p, xx);
    TimesIsProduct(q, yy);
    TimesIsProduct(p + q, zz);
  }

  function CoordinateDistance(p: nat, x: real, q: nat, y: real): real
    requires p > 0 && q > 0
  {
    Share(p, q) * ((x - y) * (x - y))
  }

  function Share(p: nat, q: nat): real
    requires p > 0 && q > 0
  {
    p as real * q as real / (p + q) as real
  }

  // The weighted squared distance of two groups' means, coordinate by coordinate.
  function WardDistance(p: nat, a: Features, q: nat, b: Features): real
    requires p > 0 && q > 0 && |a| == |b|
  {
    if |a| == 0 then 0.0
    else WardDistance(p, Front(a), q, Front(b)) + CoordinateDistance(p, Last(a), q, Last(b))
  }

  /** Joining two groups loses exactly the weighted squared distance of their means. */
  lemma {:induction false} WardIdentity(p: nat, a: Features, q: nat, b: Features)
    requires p > 0 && q > 0 && |a| == |b|
    ensures Times(p, SumOfSquares(a)) + Times(q, SumOfSquares(b))
         == Times(p + q, SumOfSquares(Combine(p, a, q, b))) + WardDistance(p, a, q, b)
  {
    var c := Combine(p, a, q, b);
    if |a| == 0 {
      TimesIsProduct(p, 0.0);
      TimesIsProduct(q, 0.0);
      TimesIsProduct(p + q, 0.0);
    } else {
      WardIdentity(p, Front(a), q, Front(b));
      CombineFront(p, a, q, b);
      WardLast(p, a, q, b);
      AddIdentities(p, SumOfSquares(Front(a)), LastSquare(a), SumOfSquares(a),
                    q, SumOfSquares(Front(b)), LastSquare(b), SumOfSquares(b),
                    SumOfSquares(Front(c)), LastSquare(c), SumOfSquares(c),
                    WardDistance(p, Front(a), q, Front(b)), WardDistance(p, a, q, b));
    }
  }

  // What the last coordinate adds to the sum of squares.
  function LastSquare(a: Features): real
    requires |a| > 0
  {
    SumOfSquares(a) - SumOfSquares(Front(a))
  }

  lemma WardLast(p: nat, a: Features, q: nat, b: Features)
    requires p > 0 && q > 0 && |a| == |b| > 0
    ensures Times(p, LastSquare(a)) + Times(q, LastSquare(b))
         == Times(p + q, LastSquare(Combine(p, a, q, b)))
            + WardDistance(p, a, q, b) - WardDistance(p, Front(a), q, Front(b))
  {
    var c := Combine(p, a, q, b);
    CombineFront(p, a, q, b);
    SquaresStep(a);
    SquaresStep(b);
    SquaresStep(c);
    WardCoordinateTimes(p, Last(a), LastSquare(a), q, Last(b), LastSquare(b), Last(c), LastSquare(c),
                        WardDistance(p, a, q, b) - WardDistance(p, Front(a), q, Front(b)));
  }

  lemma SquaresStep(a: Features)
    requires |a| > 0
    ensures LastSquare(a) == Last(a) * Last(a)
  {}

  // Adding two identities of the same shape.
  lemma AddIdentities(p: nat, a: real, x: real, a': real, q: nat, b: real, y: real, b': real,
                                         c: real, z: real, c': real, v: real, d: real)
    requires Times(p, a) + Times(q, b) == Times(p + q, c) + v
    requires Times(p, x) + Times(q, y) == Times(p + q, z) + d - v
    requires a' == a + x && b' == b + y && c' == c + z
    ensures Times(p, a') + Times(q, b') == Times(p + q, c') + d
  {
    TimesSum(p, a, x);
    TimesSum(q, b, y);
    TimesSum(p + q, c, z);
  }

  lemma {:induction false} WardNonNegative(p: nat, a: Features, q: nat, b: Features)
    requires p > 0 && q > 0 && |a| == |b|
    ensures WardDistance(p, a, q, b) >= 0.0
  {
    if |a| == 0 {
    } else {
      WardNonNegative(p, Front(a), q, Front(b));
      SquareNonNegative(Last(a) - Last(b));
      ShareNonNegative(p as real, q as real, (p + q) as real, (Last(a) - Last(b)) * (Last(a) - Last(b)));
    }
  }

  /** The weighted squared distance is the share pq/(p+q) of the squared distance of the means. */
  lemma {:induction false} WardDistanceIsScaled(p: nat, a: Features, q: nat, b: Features)
    requires p > 0 && q > 0 && |a| == |b|
    ensures WardDistance(p, a, q, b) == Share(p, q) * SumOfSquares(Difference(a, b))
  {
    hide Share, Weighted, Combine;
    if |a| == 0 {
    } else {
      WardDistanceIsScaled(p, Front(a), q, Front(b));
      CombineFront(p, a, q, b);
      Distribute(Share(p, q), SumOfSquares(Difference(Front(a), Front(b))), (Last(a) - Last(b)) * (Last(a) - Last(b)));
    }
  }

  lemma Distribute(n: real, a: real, b: real)
    ensures n * (a + b) == n * a + n * b
  {}

  lemma ShareNonNegative(p: real, q: real, s: real, d: real)
    requires p > 0.0 && q > 0.0 && s > 0.0 && d >= 0.0
    ensures (p * q / s) * d >= 0.0
  {
    PositiveProduct(p, q);
    QuotientNonNegative(p * q, s);
  }

  lemma CombineFront(p: nat, a: Features, q: nat, b: Features)
    requires p > 0 && q > 0 && |a| == |b| > 0
    ensures Front(Combine(p, a, q, b)) == Combine(p, Front(a), q, Front(b))
    ensures Front(Difference(a, b)) == Difference(Front(a), Front(b))
    ensures Last(Combine(p, a, q, b)) == Weighted(p, Last(a), q, Last(b))
  {
    forall i | 0 <= i < |a| - 1
      ensures Front(Combine(p, a, q, b))[i] == Combine(p, Front(a), q, Front(b))[i]
    {
      assert Front(a)[i] == a[i] && Front(b)[i] == b[i];
    }
  }
}
