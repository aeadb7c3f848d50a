/** Naive-Bayes spam scores: word statistics, the classifier of a catalogue, and its scores. */
module Bayes {
  import opened Sequences
  import opened Words
  import opened Wrappers

  // A parsed post: its text, its words, and the fingerprint it was counted under.
  datatype MatchedBlog = MatchedBlog(content: string, words: seq<string>, matchFingerprint: Word)

  // --- Word counts -------------------------------------------------------------------------

  // How often a word occurs in the posts.
  function Overall(blogs: seq<MatchedBlog>, w: string): nat {
    if |blogs| == 0 then 0 else Overall(Front(blogs), w) + multiset(Last(blogs).words)[w]
  }

  // The occurrences of a word, by post and position.
  function Occurrences(blogs: seq<MatchedBlog>, w: string): set<(nat, nat)> {
    set k: nat, i | k < |blogs| && i in PositionsOf(blogs[k].words, w) :: (k, i)
  }

  // The occurrences at these positions of post k.
  function InPost(k: nat, s: set<nat>): set<(nat, nat)> {
    set i | i in s :: (k, i)
  }

  lemma {:induction false} InPostSize(k: nat, s: set<nat>)
    ensures |InPost(k, s)| == |s|
    decreases |s|
  {
    if s == {} {
      assert InPost(k, s) == {};
    } else {
      var i :| i in s;
      InPostSize(k, s - {i});
      assert InPost(k, s) == InPost(k, s - {i}) + {(k, i)};
    }
  }

  lemma OccurrencesOfLast(blogs: seq<MatchedBlog>, w: string)
    requires |blogs| > 0
    ensures var before, last := Occurrences(Front(blogs), w), InPost(|blogs| - 1, PositionsOf(Last(blogs).words, w));
      Occurrences(blogs, w) == before + last && before !! last
  {
    hide PositionsOf;
  }

  /** The count is the number of occurrences. */
  lemma {:induction false} OverallIsOccurrences(blogs: seq<MatchedBlog>, w: string)
    ensures Overall(blogs, w) == |Occurrences(blogs, w)|
  {
    if |blogs| == 0 {
      assert Occurrences(blogs, w) == {};
    } else {
      hide PositionsOf, Occurrences, InPost;
      OverallIsOccurrences(Front(blogs), w);
      OccurrencesOfLast(blogs, w);
      PositionsSize(Last(blogs).words, w);
      InPostSize(|blogs| - 1, PositionsOf(Last(blogs).words, w));
    }
  }

  lemma {:induction false} OverallConcat(s: seq<MatchedBlog>, t: seq<MatchedBlog>, w: string)
    ensures Overall(s + t, w) == Overall(s, w) + Overall(t, w)
  {
    if |t| == 0 {
      assert s + t == s;
    } else {
      assert Front(s + t) == s + Front(t);
      OverallConcat(s, Front(t), w);
    }
  }

  // Where a further post occurs among all.
  lemma LocatePost(some: seq<MatchedBlog>, all: seq<MatchedBlog>) returns (k: nat)
    requires |some| > 0 && multiset(some) <= multiset(all)
    ensures k < |all| && all[k] == Last(some)
    ensures multiset(Front(some)) <= multiset(all[..k] + all[k + 1..])
  {
    var x := Last(some);
    FrontLast(some);
    assert x in multiset(all);
    k :| 0 <= k < |all| && all[k] == x;
    SplitAt(all, k);
    assert multiset(all) == multiset(all[..k] + [x] + all[k + 1..]);
    assert multiset(all[..k] + all[k + 1..]) == multiset(all) - multiset{x};
  }

  // Some of the posts have no more of a word than all of them.
  lemma {:induction false} OverallOfSome(some: seq<MatchedBlog>, all: seq<MatchedBlog>, w: string)
    requires multiset(some) <= multiset(all)
    ensures Overall(some, w) <= Overall(all, w)
  {
    if |some| == 0 {
    } else {
      var k := LocatePost(some, all);
      OverallOfSome(Front(some), all[..k] + all[k + 1..], w);
      OverallWithout(all, k, w);
    }
  }

  lemma {:induction false} OverallWithout(all: seq<MatchedBlog>, k: nat, w: string)
    requires k < |all|
    ensures Overall(all, w) == Overall(all[..k] + all[k + 1..], w) + multiset(all[k].words)[w]
  {
    SplitAt(all, k);
    OverallConcat(all[..k] + [all[k]], all[k + 1..], w);
    OverallConcat(all[..k], all[k + 1..], w);
    assert Front(all[..k] + [all[k]]) == all[..k];
  }

  ghost predicate Counted(counter: map<string, nat>, blogs: seq<MatchedBlog>, words: seq<string>) {
    && (forall w :: (if w in counter then counter[w] else 0) == Overall(blogs, w) + multiset(words)[w])
    && (forall w :: w in counter ==> counter[w] > 0)
  }

  lemma CountedWord(counter: map<string, nat>, blogs: seq<MatchedBlog>, words: seq<string>, w: string)
    requires Counted(counter, blogs, words)
    ensures Counted(counter[w := (if w in counter then counter[w] else 0) + 1], blogs, words + [w])
  {}

  lemma CountedPost(counter: map<string, nat>, blogs: seq<MatchedBlog>, blog: MatchedBlog)
    requires Counted(counter, blogs, blog.words)
    ensures Counted(counter, blogs + [blog], [])
  {
    assert Front(blogs + [blog]) == blogs;
  }

  method CountWords(blogs: seq<MatchedBlog>) returns (counter: map<string, nat>)
    ensures Counted(counter, blogs, [])
  {
    counter := map[];
    assert blogs[..0] == [] && Counted(counter, [], []);
    hide Counted;
    for k := 0 to |blogs|
      invariant Counted(counter, blogs[..k], [])
    {
      var words := blogs[k].words;
      assert words[..0] == [];
      for j := 0 to |words|
        invariant Counted(counter, blogs[..k], words[..j])
      {
        assert words[..j + 1] == words[..j] + [words[j]];
        CountedWord(counter, blogs[..k], words[..j], words[j]);
        if words[j] !in counter {
          counter := counter[words[j] := 1];
        } else {
          counter := counter[words[j] := counter[words[j]] + 1];
        }
      }
      assert words[..|words|] == words && blogs[..k + 1] == blogs[..k] + [blogs[k]];
      CountedPost(counter, blogs[..k], blogs[k]);
    }
    assert blogs[..|blogs|] == blogs;
  }

  // --- The word dictionary -----------------------------------------------------------------

  // Each word that occurs, with its occurrences per post.
  ghost predicate IsWordDict(dict: map<string, real>, blogs: seq<MatchedBlog>) {
    && (forall w :: w in dict <==> Overall(blogs, w) > 0)
    && (forall w :: w in dict ==> |blogs| > 0 && dict[w] == Overall(blogs, w) as real / |blogs| as real)
  }

  ghost predicate DictBut(dict: map<string, real>, blogs: seq<MatchedBlog>, done: set<string>) {
    && dict.Keys == done
    && (forall w :: w in dict ==> |blogs| > 0 && dict[w] == Overall(blogs, w) as real / |blogs| as real)
  }

  lemma DictStep(dict: map<string, real>, blogs: seq<MatchedBlog>, done: set<string>, w: string, p: real)
    requires DictBut(dict, blogs, done) && |blogs| > 0
    requires p == Overall(blogs, w) as real / |blogs| as real
    ensures DictBut(dict[w := p], blogs, done + {w})
  {}

  method MakeWordDict(blogs: seq<MatchedBlog>) returns (dict: map<string, real>)
    ensures IsWordDict(dict, blogs)
  {
    var counts := CountWords(blogs);
    dict := map[];
    var todo := counts.Keys;
    while todo != {}
      invariant todo <= counts.Keys
      invariant DictBut(dict, blogs, counts.Keys - todo)
      decreases |todo|
    {
      var w :| w in todo;
      ghost var done := counts.Keys - todo;
      todo := todo - {w};
      assert counts.Keys - todo == done + {w};
      assert Overall(blogs, w) > 0;
      var p := counts[w] as real / |blogs| as real;
      DictStep(dict, blogs, done, w, p);
      dict := dict[w := p];
    }
  }

  // --- Training ----------------------------------------------------------------------------

  function Capped(cata: seq<MatchedBlog>, w: string): nat {
    if Overall(cata, w) > |cata| then |cata| else Overall(cata, w)
  }

  /** A word is stored exactly when its count in the catalogue, capped by the number of its posts,
      is more than half of its count in all posts; its probability is the ratio of the two. */
  ghost predicate Trained(prob: map<string, real>, cata: seq<MatchedBlog>, blogs: seq<MatchedBlog>) {
    && (forall w :: w in prob <==> 2 * Capped(cata, w) > Overall(blogs, w))
    && (forall w :: w in prob ==>
          Overall(blogs, w) > 0 && prob[w] == Capped(cata, w) as real / Overall(blogs, w) as real)
  }

  // What makes the stored numbers probabilities that favour spam.
  ghost predicate Favouring(prob: map<string, real>) {
    forall w :: w in prob ==> 0.5 < prob[w] <= 1.0
  }

  lemma TrainedFavours(prob: map<string, real>, cata: seq<MatchedBlog>, blogs: seq<MatchedBlog>)
    requires Trained(prob, cata, blogs) && multiset(cata) <= multiset(blogs)
    ensures Favouring(prob)
  {
    forall w | w in prob ensures 0.5 < prob[w] <= 1.0 {
      OverallOfSome(cata, blogs, w);
      RatioBounds(Capped(cata, w) as real, Overall(blogs, w) as real, prob[w]);
    }
  }

  lemma RatioBounds(m: real, o: real, r: real)
    requires o > 0.0 && m <= o < m + m && r == m / o
    ensures 0.5 < r <= 1.0
  {
    assert r * o == m;
    Order(0.5, r, o);
    Order(r, 1.0, o);
  }

  // Multiplying by a positive factor keeps the order.
  lemma Order(x: real, y: real, o: real)
    requires o > 0.0
    ensures x < y <==> x * o < y * o
    ensures x <= y <==> x * o <= y * o
  {
    assert x < y ==> (y - x) * o > 0.0;
    assert y < x ==> (x - y) * o > 0.0;
  }

  lemma QuotientIs(x: real, y: real, z: real)
    requires y > 0.0 && z * y == x
    ensures x / y == z
  {
    assert x / y * y == x;
    Order(x / y, z, y);
    Order(z, x / y, y);
  }

  lemma QuotientChain(m: real, s: real, n: real)
    requires s > 0.0 && n > 0.0
    ensures m / s * (s / n) == m / n
  {
    var a, b := m / s, s / n;
    assert a * s == m && b * n == s;
    assert a * b * n == a * (b * n);
    QuotientIs(m, n, a * b);
  }

  lemma QuotientCancel(m: real, o: real, n: real)
    requires o > 0.0 && n > 0.0
    ensures o / n > 0.0 && (m / n) / (o / n) == m / o
  {
    var z, i := m / o, 1.0 / n;
    assert i > 0.0 && o / n == o * i && m / n == m * i;
    assert z * o == m;
    assert z * (o * i) == z * o * i;
    assert o * i > 0.0;
    QuotientIs(m * i, o * i, z);
  }

  // The formula of the code is the ratio of the counts.
  lemma StoredProbability(count: nat, s: nat, o: nat, n: nat, given: real)
    requires s > 0 && o > 0 && n > 0
    requires given == if count as real / s as real > 1.0 then 1.0 else count as real / s as real
    ensures given * (s as real / n as real) / (o as real / n as real)
         == (if count > s then s else count) as real / o as real
  {
    var m: nat := if count > s then s else count;
    assert count as real / s as real * s as real == count as real;
    GivenIsCapped(count as real, s as real, given);
    QuotientChain(m as real, s as real, n as real);
    QuotientCancel(m as real, o as real, n as real);
  }

  lemma GivenIsCapped(c: real, s: real, given: real)
    requires s > 0.0 && given == if c / s > 1.0 then 1.0 else c / s
    ensures given == (if c > s then s else c) / s
  {
    assert c / s * s == c && s / s * s == s;
    assert (c / s - 1.0) * s == c - s;
  }

  // --- Scores ------------------------------------------------------------------------------

  // The stored words of a post, each once, in the order of their first occurrences.
  function Matched(prob: map<string, real>, words: seq<string>): (matched: seq<string>)
    ensures forall w :: w in matched ==> w in prob
  {
    if |words| == 0 then []
    else
      var before := Matched(prob, Front(words));
      if Last(words) in prob && Last(words) !in before then before + [Last(words)] else before
  }

  lemma {:induction false} MatchedWords(prob: map<string, real>, words: seq<string>)
    ensures forall w :: w in Matched(prob, words) <==> w in words && w in prob
  {
    if |words| == 0 {
    } else {
      FrontLast(words);
      MatchedWords(prob, Front(words));
    }
  }

  lemma MatchedNext(prob: map<string, real>, words: seq<string>, w: string)
    ensures Matched(prob, words + [w])
         == Matched(prob, words) + if w in prob && w !in Matched(prob, words) then [w] else []
  {
    assert Front(words + [w]) == words;
  }

  lemma {:induction false} MatchedDistinct(prob: map<string, real>, words: seq<string>)
    ensures NoDuplicates(Matched(prob, words))
  {
    if |words| == 0 {
    } else {
      MatchedDistinct(prob, Front(words));
    }
  }

  // The multiplication of factors. Proofs that need no more than its laws hide what it is.
  function Multiply(x: real, y: real): real {
    x * y
  }

  lemma MultiplyCommutes(a: real, b: real, c: real)
    ensures Multiply(Multiply(a, b), c) == Multiply(Multiply(a, c), b)
  {}

  lemma MultiplyAssociates(a: real, b: real, c: real)
    ensures Multiply(Multiply(a, b), c) == Multiply(a, Multiply(b, c))
  {}

  lemma MultiplyByOne(a: real)
    ensures Multiply(a, 1.0) == a
  {}

  // The product of the words' factors.
  function Product(factor: map<string, real>, s: seq<string>): real
    requires forall w :: w in s ==> w in factor
  {
    if |s| == 0 then 1.0
    else
      assert Last(s) in s;
      Multiply(Product(factor, Front(s)), factor[Last(s)])
  }

  function Complement(prob: map<string, real>): map<string, real> {
    map w | w in prob :: 1.0 - prob[w]
  }

  // How likely spam would have, and other posts would have, all of these words.
  function Numerator(prob: map<string, real>, matched: seq<string>): real
    requires forall w :: w in matched ==> w in prob
  {
    Product(prob, matched)
  }

  function Remainder(prob: map<string, real>, matched: seq<string>): real
    requires forall w :: w in matched ==> w in prob
  {
    Product(Complement(prob), matched)
  }

  lemma ProductSigns(n: real, d: real, p: real, q: real)
    requires n >= d >= 0.0 && n > 0.0 && 0.5 < p <= 1.0 && q == 1.0 - p
    ensures Multiply(n, p) > Multiply(d, q) >= 0.0
  {
    assert n * (p - q) > 0.0;
    assert n * (p - q) == n * p - n * q;
    assert (n - d) * q >= 0.0;
    assert (n - d) * q == n * q - d * q;
    assert d * q >= 0.0;
  }

  /** Among stored words the product for spam is positive and the greater one. */
  lemma {:induction false} ProductsOrdered(prob: map<string, real>, matched: seq<string>)
    requires Favouring(prob) && forall w :: w in matched ==> w in prob
    ensures Numerator(prob, matched) >= Remainder(prob, matched) >= 0.0
    ensures Numerator(prob, matched) > 0.0
    ensures |matched| > 0 ==> Numerator(prob, matched) > Remainder(prob, matched)
  {
    hide Multiply;
    if |matched| == 0 {
    } else {
      assert Last(matched) in matched;
      ProductsOrdered(prob, Front(matched));
      var p := prob[Last(matched)];
      ProductSigns(Numerator(prob, Front(matched)), Remainder(prob, Front(matched)), p, 1.0 - p);
    }
  }

  function Share(n: real, d: real): real
    requires n + d > 0.0
  {
    n / (n + d)
  }

  function Score(prob: map<string, real>, matched: seq<string>): real
    requires Favouring(prob) && forall w :: w in matched ==> w in prob
  {
    ProductsOrdered(prob, matched);
    Share(Numerator(prob, matched), Remainder(prob, matched))
  }

  // The quotient r of x and y.
  lemma QuotientBounds(x: real, y: real, r: real)
    requires y > 0.0 && r * y == x
    requires 0.5 * y < x <= y
    ensures 0.5 < r <= 1.0
  {
    Order(0.5, r, y);
    Order(r, 1.0, y);
  }

  lemma ShareBounds(n: real, d: real)
    requires n > d >= 0.0
    ensures 0.5 < Share(n, d) <= 1.0
  {
    var r := Share(n, d);
    assert r * (n + d) == n;
    QuotientBounds(n, n + d, r);
  }

  lemma ScoreBounds(prob: map<string, real>, matched: seq<string>)
    requires Favouring(prob) && |matched| > 0 && forall w :: w in matched ==> w in prob
    ensures 0.5 < Score(prob, matched) <= 1.0
  {
    hide Multiply;
    ProductsOrdered(prob, matched);
    ShareBounds(Numerator(prob, matched), Remainder(prob, matched));
  }

  // --- How probabilities combine -----------------------------------------------------------

  lemma ShareOfSum(n: real, d: real)
    requires n + d > 0.0
    ensures Share(n, d) * (n + d) == n
    ensures (1.0 - Share(n, d)) * (n + d) == d
    ensures (1.0 - Share(n, d)) * n == Share(n, d) * d
  {
    var s := Share(n, d);
    assert s * (n + d) == n;
    assert (1.0 - s) * (n + d) == (n + d) - s * (n + d);
  }

  // s is the share of n in n + d and t that of n * p in n * p + d * q.
  lemma SharesCombine(n: real, d: real, p: real, q: real, s: real, t: real)
    requires n + d > 0.0 && s * (n + d) == n && (1.0 - s) * (n + d) == d && t * (n * p + d * q) == n * p
    ensures t * (s * p + (1.0 - s) * q) == s * p
  {
    var m := n + d;
    assert m * (s * p) == n * p by {
      assert m * (s * p) == (s * m) * p;
    }
    assert m * ((1.0 - s) * q) == d * q by {
      assert m * ((1.0 - s) * q) == ((1.0 - s) * m) * q;
    }
    SumTimes(m, t, s * p, (1.0 - s) * q, n * p, d * q);
    CancelTimes(m, t * (s * p + (1.0 - s) * q), s * p);
  }

  lemma SumTimes(m: real, t: real, a: real, b: real, x: real, y: real)
    requires m * a == x && m * b == y
    ensures m * (t * (a + b)) == t * (x + y)
  {
    assert m * (a + b) == x + y;
    assert m * (t * (a + b)) == t * (m * (a + b));
  }

  lemma CancelTimes(m: real, a: real, b: real)
    requires m > 0.0 && m * a == m * b
    ensures a == b
  {
    assert m * (a - b) == 0.0;
  }

  lemma ProductOfOne(factor: map<string, real>, w: string)
    requires w in factor
    ensures Product(factor, [w]) == factor[w]
  {
    assert Front([w]) == [];
    assert Product(factor, Front([w])) == 1.0;
  }

  /** One stored word scores its own probability. */
  lemma ScoreOfOne(prob: map<string, real>, w: string)
    requires Favouring(prob) && w in prob
    ensures Score(prob, [w]) == prob[w]
  {
    ProductOfOne(prob, w);
    ProductOfOne(Complement(prob), w);
    QuotientIs(prob[w], prob[w] + (1.0 - prob[w]), prob[w]);
  }

  /** With one word of probability p more, a score s becomes the share of s * p in
      s * p + (1 - s) * (1 - p). */
  lemma ScoreExtends(prob: map<string, real>, matched: seq<string>, w: string)
    requires Favouring(prob) && w in prob && forall x :: x in matched ==> x in prob
    ensures var s, p := Score(prob, matched), prob[w];
      Score(prob, matched + [w]) * (s * p + (1.0 - s) * (1.0 - p)) == s * p
  {
    var n, d, p := Numerator(prob, matched), Remainder(prob, matched), prob[w];
    assert Front(matched + [w]) == matched;
    ProductsOrdered(prob, matched);
    ProductsOrdered(prob, matched + [w]);
    ShareOfSum(n, d);
    ShareOfSum(n * p, d * (1.0 - p));
    SharesCombine(n, d, p, 1.0 - p, Score(prob, matched), Score(prob, matched + [w]));
  }

  // --- The score depends on the set of matched words ---------------------------------------

  lemma {:induction false} ProductWithout(factor: map<string, real>, s: seq<string>, x: string, t: seq<string>)
    requires x in factor && forall w :: w in s + t ==> w in factor
    ensures forall w :: w in s + [x] + t ==> w in factor
    ensures Product(factor, s + [x] + t) == Multiply(Product(factor, s + t), factor[x])
  {
    hide Multiply;
    if |t| == 0 {
      assert s + t == s && s + [x] + t == s + [x];
      assert Front(s + [x]) == s && Last(s + [x]) == x;
    } else {
      assert Last(t) in s + t;
      assert Front(s + t) == s + Front(t) && Front(s + [x] + t) == s + [x] + Front(t);
      ProductWithout(factor, s, x, Front(t));
      assert Last(s + t) == Last(t) && Last(s + [x] + t) == Last(t);
      MultiplyCommutes(Product(factor, s + Front(t)), factor[x], factor[Last(t)]);
    }
  }

  lemma {:induction false} ProductPermuted(factor: map<string, real>, s: seq<string>, t: seq<string>)
    requires multiset(s) == multiset(t)
    requires (forall w :: w in s ==> w in factor) && forall w :: w in t ==> w in factor
    ensures Product(factor, s) == Product(factor, t)
  {
    hide Multiply;
    if |s| == 0 {
      assert |multiset(t)| == 0;
    } else {
      var k := LocateLast(s, t);
      var rest := t[..k] + t[k + 1..];
      assert forall w :: w in rest ==> w in t;
      ProductPermuted(factor, Front(s), rest);
      assert Last(s) in s;
      ProductWithout(factor, t[..k], Last(s), t[k + 1..]);
    }
  }

  lemma {:induction false} ProductConcat(factor: map<string, real>, s: seq<string>, t: seq<string>)
    requires (forall w :: w in s ==> w in factor) && forall w :: w in t ==> w in factor
    ensures Product(factor, s + t) == Multiply(Product(factor, s), Product(factor, t))
  {
    hide Multiply;
    if |t| == 0 {
      assert s + t == s;
      MultiplyByOne(Product(factor, s));
    } else {
      assert Last(t) in t && Front(s + t) == s + Front(t);
      assert Last(s + t) == Last(t);
      ProductConcat(factor, s, Front(t));
      MultiplyAssociates(Product(factor, s), Product(factor, Front(t)), factor[Last(t)]);
    }
  }

  lemma ScorePermuted(prob: map<string, real>, s: seq<string>, t: seq<string>)
    requires Favouring(prob) && multiset(s) == multiset(t)
    requires (forall w :: w in s ==> w in prob) && forall w :: w in t ==> w in prob
    ensures Score(prob, s) == Score(prob, t)
  {
    hide Multiply;
    ProductPermuted(prob, s, t);
    ProductPermuted(Complement(prob), s, t);
  }

  lemma SameElementsPermuted(s: seq<string>, t: seq<string>)
    requires NoDuplicates(s) && NoDuplicates(t) && forall w :: w in s <==> w in t
    ensures multiset(s) == multiset(t)
  {
    forall w ensures multiset(s)[w] == multiset(t)[w] {
      CountOfDistinct(s, w);
      CountOfDistinct(t, w);
      assert w in multiset(s) <==> w in s;
      assert w in multiset(t) <==> w in t;
    }
  }

  // --- A further stored word never lowers the score ----------------------------------------

  lemma ShareGrows(n: real, d: real, a: real, b: real)
    requires n > 0.0 && d >= 0.0 && a > 0.0 && a >= b >= 0.0
    ensures Multiply(n, a) > 0.0 && Multiply(d, b) >= 0.0
    ensures Share(n, d) <= Share(Multiply(n, a), Multiply(d, b))
  {
    assert n * a > 0.0 && d * b >= 0.0;
    assert (a - b) * (n * d) >= 0.0 by {
      assert n * d >= 0.0;
    }
    var r, q := n / (n + d), n * a / (n * a + d * b);
    assert r * (n + d) == n && q * (n * a + d * b) == n * a;
    FractionOrder(n, n + d, n * a, n * a + d * b, r, q);
  }

  lemma FractionOrder(x: real, y: real, z: real, u: real, r: real, q: real)
    requires y > 0.0 && u > 0.0 && x * u <= z * y
    requires r * y == x && q * u == z
    ensures r <= q
  {
    assert y * u > 0.0;
    assert r * (y * u) == x * u && q * (y * u) == z * y;
    Order(r, q, y * u);
  }

  lemma ScoreGrows(prob: map<string, real>, s: seq<string>, t: seq<string>)
    requires Favouring(prob)
    requires (forall w :: w in s ==> w in prob) && forall w :: w in t ==> w in prob
    ensures Score(prob, s) <= Score(prob, s + t)
  {
    hide Multiply;
    ProductConcat(prob, s, t);
    ProductConcat(Complement(prob), s, t);
    ProductsOrdered(prob, s);
    ProductsOrdered(prob, t);
    ShareGrows(Numerator(prob, s), Remainder(prob, s), Numerator(prob, t), Remainder(prob, t));
  }

  // The elements of t that s lacks, in order.
  function Missing(s: seq<string>, t: seq<string>): (r: seq<string>)
    ensures forall w :: w in r <==> w in t && w !in s
  {
    if |t| == 0 then []
    else
      assert t == Front(t) + [Last(t)];
      Missing(s, Front(t)) + if Last(t) in s then [] else [Last(t)]
  }

  lemma {:induction false} MissingDistinct(s: seq<string>, t: seq<string>)
    requires NoDuplicates(t)
    ensures NoDuplicates(Missing(s, t))
  {
    if |t| == 0 {
    } else {
      MissingDistinct(s, Front(t));
    }
  }

  /** A post that matches every stored word another post matches scores at least as high; posts
      matching the same stored words score the same, whatever their order and repetitions. */
  lemma ScoreMonotone(prob: map<string, real>, few: seq<string>, more: seq<string>)
    requires Favouring(prob)
    requires forall w :: w in prob && w in few ==> w in more
    ensures Score(prob, Matched(prob, few)) <= Score(prob, Matched(prob, more))
    ensures (forall w :: w in prob && w in more ==> w in few) ==>
      Score(prob, Matched(prob, few)) == Score(prob, Matched(prob, more))
  {
    hide Multiply, Score;
    var s, t := Matched(prob, few), Matched(prob, more);
    MatchedDistinct(prob, few);
    MatchedDistinct(prob, more);
    MatchedWords(prob, few);
    MatchedWords(prob, more);
    var rest := Missing(s, t);
    MissingDistinct(s, t);
    NoDuplicatesConcat(s, rest);
    SameElementsPermuted(s + rest, t);
    ScorePermuted(prob, s + rest, t);
    ScoreGrows(prob, s, rest);
    if forall w :: w in prob && w in more ==> w in few {
      SameElementsPermuted(s, t);
      ScorePermuted(prob, s, t);
    }
  }

  // --- The classifier ----------------------------------------------------------------------

  // The score of a post: none below two distinct stored words.
  function Verdict(prob: map<string, real>, words: seq<string>): Option<real>
    requires Favouring(prob)
  {
    if |Matched(prob, words)| < 2 then None else Some(Score(prob, Matched(prob, words)))
  }

  /** A post gets a score exactly when it has two distinct stored words; the score is above 1/2. */
  lemma VerdictBounds(prob: map<string, real>, words: seq<string>)
    requires Favouring(prob)
    ensures Verdict(prob, words).Some? <==> |set w | w in words && w in prob| >= 2
    ensures Verdict(prob, words).Some? ==> 0.5 < Verdict(prob, words).value <= 1.0
  {
    hide Multiply, Score;
    var matched := Matched(prob, words);
    MatchedWords(prob, words);
    MatchedDistinct(prob, words);
    ElementsSize(matched);
    assert Elements(matched) == set w | w in words && w in prob;
    if |matched| > 0 {
      ScoreBounds(prob, matched);
    }
  }

  // The stored words of a post, each once, in some order.
  ghost predicate StoredOnce(prob: map<string, real>, words: seq<string>, matched: seq<string>) {
    NoDuplicates(matched) && forall w :: w in matched <==> w in words && w in prob
  }

  // In whatever order the stored words are taken, the odds of s are those of the two products.
  ghost predicate HasOdds(prob: map<string, real>, words: seq<string>, s: real) {
    forall matched :: StoredOnce(prob, words, matched) ==>
      (1.0 - s) * Product(prob, matched) == s * Product(Complement(prob), matched)
  }

  /** The odds of a score are those of the product of the stored words' probabilities and the product
      of their complements. */
  lemma VerdictOdds(prob: map<string, real>, words: seq<string>)
    requires Favouring(prob) && Verdict(prob, words).Some?
    ensures HasOdds(prob, words, Verdict(prob, words).value)
  {
    hide Multiply, Share, Product;
    MatchedWords(prob, words);
    MatchedDistinct(prob, words);
    forall matched | StoredOnce(prob, words, matched)
      ensures var s := Verdict(prob, words).value;
        (1.0 - s) * Product(prob, matched) == s * Product(Complement(prob), matched)
    {
      SameElementsPermuted(Matched(prob, words), matched);
      ScorePermuted(prob, Matched(prob, words), matched);
      ProductsOrdered(prob, matched);
      ShareOfSum(Numerator(prob, matched), Remainder(prob, matched));
    }
  }

  /** Two stored words a and b combine to the share of p * q in p * q + (1 - p) * (1 - q). */
  lemma VerdictOfTwo(prob: map<string, real>, a: string, b: string)
    requires Favouring(prob) && a in prob && b in prob && a != b
    ensures Verdict(prob, [a, b]).Some?
    ensures var p, q := prob[a], prob[b];
      Verdict(prob, [a, b]).value * (p * q + (1.0 - p) * (1.0 - q)) == p * q
  {
    hide Multiply, Share, Product, Score;
    assert [] + [a] == [a] && [a] + [b] == [a, b];
    MatchedNext(prob, [], a);
    MatchedNext(prob, [a], b);
    ScoreOfOne(prob, a);
    ScoreExtends(prob, [a], b);
  }

  /** A further stored word combines with the score before it. */
  lemma VerdictExtends(prob: map<string, real>, words: seq<string>, w: string)
    requires Favouring(prob) && Verdict(prob, words).Some?
    requires w in prob && w !in words
    ensures Verdict(prob, words + [w]).Some?
    ensures var s, p := Verdict(prob, words).value, prob[w];
      Verdict(prob, words + [w]).value * (s * p + (1.0 - s) * (1.0 - p)) == s * p
  {
    hide Multiply, Share, Product, Score;
    MatchedWords(prob, words);
    MatchedNext(prob, words, w);
    ScoreExtends(prob, Matched(prob, words), w);
  }

  /** With further stored words a scored post stays scored, and no lower. */
  lemma VerdictMonotone(prob: map<string, real>, few: seq<string>,
          more: seq<string>)
    requires Favouring(prob)
    requires forall w :: w in prob && w in few ==> w in more
    requires Verdict(prob, few).Some?
    ensures Verdict(prob, more).Some?
    ensures Verdict(prob, few).value <= Verdict(prob, more).value
  {
    hide Multiply, Score;
    ScoreMonotone(prob, few, more);
    VerdictBounds(prob, few);
    VerdictBounds(prob, more);
    SubsetSize(set w | w in few && w in prob, set w | w in more && w in prob);
  }

  // What training has stored once the words in done have been looked at.
  ghost predicate TrainedBut(prob: map<string, real>, cata: seq<MatchedBlog>, blogs: seq<MatchedBlog>,
          done: set<string>) {
    && (forall w :: w in prob <==> w in done && 2 * Capped(cata, w) > Overall(blogs, w))
    && (forall w :: w in prob ==>
          Overall(blogs, w) > 0 && prob[w] == Capped(cata, w) as real / Overall(blogs, w) as real)
  }

  // p(w|S) p(S) / p(w), with p(w|S) capped at 1.
  method WordProbability(count: nat, cataSize: nat, allBlogsSize: nat, probW: real,
          ghost overall: nat) returns (prob: real)
    requires cataSize > 0 && allBlogsSize > 0 && overall > 0 && probW == overall as real / allBlogsSize as real
    ensures prob == (if count > cataSize then cataSize else count) as real / overall as real
    ensures prob > 0.5 <==> 2 * (if count > cataSize then cataSize else count) > overall
  {
    QuotientCancel(1.0, overall as real, allBlogsSize as real);
    var probS := cataSize as real / allBlogsSize as real;
    var given := count as real / cataSize as real;
    if given > 1.0 {
      given := 1.0;
    }
    prob := given * probS / probW;
    StoredProbability(count, cataSize, overall, allBlogsSize, given);
    HalfRatio(if count > cataSize then cataSize else count, overall, prob);
  }

  lemma TrainedNone(cata: seq<MatchedBlog>, blogs: seq<MatchedBlog>)
    ensures TrainedBut(map[], cata, blogs, {})
  {}

  lemma TrainedStep(prob: map<string, real>, cata: seq<MatchedBlog>, blogs: seq<MatchedBlog>, done: set<string>,
          w: string, p: real)
    requires TrainedBut(prob, cata, blogs, done) && w !in done && Overall(blogs, w) > 0
    requires p == Capped(cata, w) as real / Overall(blogs, w) as real
    requires p > 0.5 <==> 2 * Capped(cata, w) > Overall(blogs, w)
    ensures TrainedBut(if p > 0.5 then prob[w := p] else prob, cata, blogs, done + {w})
  {}

  // The loops of the constructor.
  method Train(cata: seq<MatchedBlog>, wordDict: map<string, real>, ghost blogs: seq<MatchedBlog>, allBlogsSize: nat)
      returns (prob: map<string, real>)
    requires allBlogsSize == |blogs| && IsWordDict(wordDict, blogs)
    requires multiset(cata) <= multiset(blogs)
    ensures Trained(prob, cata, blogs)
  {
    hide Overall, Capped, Counted, TrainedBut, Trained;
    TrainedNone(cata, blogs);
    var counter := CountWords(cata);
    prob := map[];
    var todo := counter.Keys;
    assert counter.Keys - todo == {};
    while todo != {}
      invariant todo <= counter.Keys
      invariant TrainedBut(prob, cata, blogs, counter.Keys - todo)
      decreases |todo|
    {
      var w :| w in todo;
      ghost var done := counter.Keys - todo;
      todo := todo - {w};
      assert counter.Keys - todo == done + {w};
      WordIsKnown(counter, cata, blogs, w);
      var p := WordProbability(counter[w], |cata|, allBlogsSize, wordDict[w], Overall(blogs, w));
      TrainedStep(prob, cata, blogs, done, w, p);
      if p > 0.5 {
        prob := prob[w := p];
      }
    }
    assert counter.Keys - todo == counter.Keys;
    TrainedAll(prob, counter, cata, blogs);
  }

  lemma TrainedAll(prob: map<string, real>, counter: map<string, nat>, cata: seq<MatchedBlog>, blogs: seq<MatchedBlog>)
    requires TrainedBut(prob, cata, blogs, counter.Keys) && Counted(counter, cata, [])
    ensures Trained(prob, cata, blogs)
  {
    UncountedWords(counter, cata);
  }

  // What the loop of IsSpam has gathered from some words.
  ghost predicate Gathered(prob: map<string, real>, words: seq<string>, numerator: real,
          denominator: real, seen: set<string>, count: nat) {
    var matched := Matched(prob, words);
    && (forall w :: w in seen <==> w in matched)
    && count == |matched|
    && numerator == Numerator(prob, matched)
    && denominator == Remainder(prob, matched)
  }

  lemma GatheredNone(prob: map<string, real>)
    ensures Gathered(prob, [], 1.0, 1.0, {}, 0)
  {}

  lemma GatheredStep(prob: map<string, real>, words: seq<string>, w: string,
                                        numerator: real, denominator: real, seen: set<string>, count: nat)
    requires Gathered(prob, words, numerator, denominator, seen, count)
    ensures w !in prob || w in seen ==> Gathered(prob, words + [w], numerator, denominator, seen, count)
    ensures w in prob && w !in seen ==>
      Gathered(prob, words + [w], Multiply(numerator, prob[w]), Multiply(denominator, 1.0 - prob[w]),
               seen + {w}, count + 1)
  {
    hide Multiply;
    assert Front(words + [w]) == words;
    if w in prob && w !in seen {
      var matched := Matched(prob, words);
      assert Front(matched + [w]) == matched && Matched(prob, words + [w]) == matched + [w];
    }
  }

  lemma GatheredVerdict(prob: map<string, real>, words: seq<string>,
          numerator: real, denominator: real, seen: set<string>, count: nat)
    requires Favouring(prob) && Gathered(prob, words, numerator, denominator, seen, count)
    ensures numerator + denominator > 0.0
    ensures Verdict(prob, words) == if count < 2 then None else Some(Share(numerator, denominator))
  {
    ProductsOrdered(prob, Matched(prob, words));
  }

  // The loop of IsSpam: the products over the distinct stored words, and their number.
  method Gather(prob: map<string, real>, words: seq<string>)
      returns (numerator: real, denominator: real, matchWordCount: nat, duplicateWord: set<string>)
    ensures Gathered(prob, words, numerator, denominator, duplicateWord, matchWordCount)
  {
    hide *;
    GatheredNone(prob);
    numerator, denominator, matchWordCount := 1.0, 1.0, 0;
    duplicateWord := {};
    assert words[..0] == [];
    for k := 0 to |words|
      invariant Gathered(prob, words[..k], numerator, denominator, duplicateWord, matchWordCount)
    {
      var w := words[k];
      assert words[..k + 1] == words[..k] + [w];
      GatheredStep(prob, words[..k], w, numerator, denominator, duplicateWord, matchWordCount);
      if w !in prob || w in duplicateWord {
        continue;
      }
      duplicateWord := duplicateWord + {w};
      matchWordCount := matchWordCount + 1;
      var p := prob[w];
      numerator := Multiply(numerator, p);
      denominator := Multiply(denominator, 1.0 - p);
    }
    assert words[..|words|] == words;
  }

  class Classifier {
    const threshold: real
    const probCataGivenW: map<string, real>

    constructor (cata: seq<MatchedBlog>, wordDict: map<string, real>, threshold: real, ghost blogs: seq<MatchedBlog>,
            allBlogsSize: nat)
      requires allBlogsSize == |blogs| && IsWordDict(wordDict, blogs)
      requires multiset(cata) <= multiset(blogs)
      ensures Trained(probCataGivenW, cata, blogs) && Favouring(probCataGivenW)
      ensures this.threshold == threshold
    {
      this.threshold := threshold;
      var prob := Train(cata, wordDict, blogs, allBlogsSize);
      TrainedFavours(prob, cata, blogs);
      probCataGivenW := prob;
    }

    /** Nothing below two distinct stored words; otherwise the score decides. */
    method IsSpam(words: seq<string>) returns (spam: bool, resProb: Option<real>)
      requires Favouring(probCataGivenW)
      ensures resProb == Verdict(probCataGivenW, words)
      ensures resProb.Some? <==> |set w | w in words && w in probCataGivenW| >= 2
      ensures resProb.Some? ==> HasOdds(probCataGivenW, words, resProb.value)
      ensures spam == (resProb.Some? && resProb.value >= threshold)
    {
      var numerator, denominator, matchWordCount, seen := Gather(probCataGivenW, words);
      GatheredVerdict(probCataGivenW, words, numerator, denominator, seen, matchWordCount);
      VerdictBounds(probCataGivenW, words);
      hide *;
      if matchWordCount >= 2 {
        VerdictOdds(probCataGivenW, words);
      }
      if matchWordCount < 2 {
        return false, None;
      }
      resProb := Some(Share(numerator, denominator));
      spam := resProb.value >= threshold;
    }
  }

  lemma WordIsKnown(counter: map<string, nat>, cata: seq<MatchedBlog>, blogs: seq<MatchedBlog>, w: string)
    requires Counted(counter, cata, []) && w in counter && multiset(cata) <= multiset(blogs)
    ensures Capped(cata, w) == (if counter[w] > |cata| then |cata| else counter[w])
    ensures |cata| > 0 && |blogs| > 0 && Overall(blogs, w) > 0
  {
    OverallOfSome(cata, blogs, w);
  }

  lemma UncountedWords(counter: map<string, nat>, cata: seq<MatchedBlog>)
    requires Counted(counter, cata, [])
    ensures forall w :: w !in counter ==> Capped(cata, w) == 0
  {
    forall w | w !in counter ensures Capped(cata, w) == 0 {
      assert Overall(cata, w) == 0;
    }
  }

  lemma HalfRatio(m: nat, o: nat, r: real)
    requires o > 0 && r == m as real / o as real
    ensures r > 0.5 <==> 2 * m > o
  {
    AboveHalf(m as real, o as real, r);
    assert 2 * m > o <==> m as real + m as real > o as real;
  }

  lemma AboveHalf(m: real, o: real, r: real)
    requires o > 0.0 && r == m / o
    ensures r > 0.5 <==> m + m > o
  {
    assert r * o == m;
    Order(0.5, r, o);
  }

  // --- The factory -------------------------------------------------------------------------

  const BAYES_REF_COUNT_LOWER_BOUND := 5
  const BAYES_SPAM_THRESHOLD := 0.8

  // The posts counted under the key, without those of an official topic.
  function Catalogue(blogs: seq<MatchedBlog>, key: Word): seq<MatchedBlog> {
    if |blogs| == 0 then []
    else
      Catalogue(Front(blogs), key) +
      if '#' !in Last(blogs).content && Last(blogs).matchFingerprint == key then [Last(blogs)] else []
  }

  lemma {:induction false} CatalogueWithin(blogs: seq<MatchedBlog>, key: Word)
    ensures multiset(Catalogue(blogs, key)) <= multiset(blogs)
  {
    if |blogs| == 0 {
    } else {
      FrontLast(blogs);
      CatalogueWithin(Front(blogs), key);
    }
  }

  // Exactly the posts counted under the key that are of no official topic, in order.
  ghost predicate IsCatalogue(catalogue: seq<MatchedBlog>, blogs: seq<MatchedBlog>, key: Word) {
    exists at :: PicksAt(catalogue, blogs, at) && forall k: nat ::
      k in at <==> k < |blogs| && '#' !in blogs[k].content && blogs[k].matchFingerprint == key
  }

  lemma CatalogueIsCatalogue(blogs: seq<MatchedBlog>, key: Word)
    ensures IsCatalogue(Catalogue(blogs, key), blogs, key)
  {
    var at := CatalogueAt(blogs, key);
  }

  lemma {:induction false} CatalogueAt(blogs: seq<MatchedBlog>, key: Word) returns (at: seq<nat>)
    ensures PicksAt(Catalogue(blogs, key), blogs, at)
    ensures forall k: nat :: k in at <==> k < |blogs| && '#' !in blogs[k].content && blogs[k].matchFingerprint == key
  {
    if |blogs| == 0 {
      at := [];
    } else {
      at := CatalogueAt(Front(blogs), key);
      FrontLast(blogs);
      PicksNext(Catalogue(Front(blogs), key), Front(blogs), at, Last(blogs));
      if '#' !in Last(blogs).content && Last(blogs).matchFingerprint == key {
        at := at + [|blogs| - 1];
      }
    }
  }

  ghost predicate Grouped(catalogs: map<Word, seq<MatchedBlog>>, blogs: seq<MatchedBlog>) {
    && (forall key :: key in catalogs ==> catalogs[key] == Catalogue(blogs, key))
    && (forall key: Word :: key !in catalogs ==> Catalogue(blogs, key) == [])
  }

  lemma {:induction false} CatalogueStep(blogs: seq<MatchedBlog>, blog: MatchedBlog, key: Word)
    ensures Catalogue(blogs + [blog], key) ==
      Catalogue(blogs, key) + if '#' !in blog.content && blog.matchFingerprint == key then [blog] else []
  {
    assert Front(blogs + [blog]) == blogs;
  }

  lemma GroupedStep(catalogs: map<Word, seq<MatchedBlog>>, blogs: seq<MatchedBlog>,
          blog: MatchedBlog)
    requires Grouped(catalogs, blogs)
    ensures '#' in blog.content ==> Grouped(catalogs, blogs + [blog])
    ensures '#' !in blog.content ==>
      var key := blog.matchFingerprint;
      Grouped(catalogs[key := (if key in catalogs then catalogs[key] else []) + [blog]], blogs + [blog])
  {
    forall key: Word
      ensures Catalogue(blogs + [blog], key) ==
        Catalogue(blogs, key) + if '#' !in blog.content && blog.matchFingerprint == key then [blog] else []
    {
      CatalogueStep(blogs, blog, key);
    }
  }

  method GroupBlogs(blogs: seq<MatchedBlog>) returns (catalogs: map<Word, seq<MatchedBlog>>)
    ensures Grouped(catalogs, blogs)
  {
    catalogs := map[];
    for k := 0 to |blogs|
      invariant Grouped(catalogs, blogs[..k])
    {
      assert blogs[..k + 1] == blogs[..k] + [blogs[k]];
      GroupedStep(catalogs, blogs[..k], blogs[k]);
      if '#' in blogs[k].content {
        continue;
      }
      var key := blogs[k].matchFingerprint;
      catalogs := catalogs[key := (if key in catalogs then catalogs[key] else []) + [blogs[k]]];
    }
    assert blogs[..|blogs|] == blogs;
  }

  // Classifiers trained for these fingerprints.
  ghost predicate Built(classifiers: seq<Classifier>, keys: seq<Word>, blogs: seq<MatchedBlog>) {
    && |classifiers| == |keys|
    && forall i :: 0 <= i < |keys| ==>
         && Trained(classifiers[i].probCataGivenW, Catalogue(blogs, keys[i]), blogs)
         && classifiers[i].threshold == BAYES_SPAM_THRESHOLD
  }

  lemma {:induction false} BuiltStep(classifiers: seq<Classifier>, keys: seq<Word>, blogs: seq<MatchedBlog>,
          c: Classifier, key: Word)
    requires Built(classifiers, keys, blogs)
    requires Trained(c.probCataGivenW, Catalogue(blogs, key), blogs) && c.threshold == BAYES_SPAM_THRESHOLD
    ensures Built(classifiers + [c], keys + [key], blogs)
  {}

  // The keys in done whose catalogues are large enough.
  ghost predicate Chosen(keys: seq<Word>, catalogs: map<Word, seq<MatchedBlog>>, done: set<Word>) {
    && NoDuplicates(keys)
    && forall key :: key in keys <==> key in done && key in catalogs && |catalogs[key]| >= BAYES_REF_COUNT_LOWER_BOUND
  }

  lemma ChosenStep(keys: seq<Word>, catalogs: map<Word, seq<MatchedBlog>>, done: set<Word>, key: Word)
    requires Chosen(keys, catalogs, done) && key in catalogs && key !in done
    ensures |catalogs[key]| >= BAYES_REF_COUNT_LOWER_BOUND ==> Chosen(keys + [key], catalogs, done + {key})
    ensures |catalogs[key]| < BAYES_REF_COUNT_LOWER_BOUND ==> Chosen(keys, catalogs, done + {key})
  {}

  lemma ChosenAll(keys: seq<Word>, catalogs: map<Word, seq<MatchedBlog>>, blogs: seq<MatchedBlog>)
    requires Grouped(catalogs, blogs) && Chosen(keys, catalogs, catalogs.Keys)
    ensures NoDuplicates(keys)
    ensures forall key: Word :: key in keys <==> |Catalogue(blogs, key)| >= BAYES_REF_COUNT_LOWER_BOUND
  {
    forall key: Word ensures key in keys <==> |Catalogue(blogs, key)| >= BAYES_REF_COUNT_LOWER_BOUND {
      assert key !in catalogs ==> Catalogue(blogs, key) == [];
    }
  }

  /** One classifier for each fingerprint with at least five posts, trained on these posts against
      all posts. The fingerprints are returned beside the classifiers. */
  method MakeBayesClassifiers(blogs: seq<MatchedBlog>) returns (classifiers: seq<Classifier>, keys: seq<Word>)
    ensures Built(classifiers, keys, blogs) && NoDuplicates(keys)
    ensures forall key: Word :: key in keys <==> |Catalogue(blogs, key)| >= BAYES_REF_COUNT_LOWER_BOUND
  {
    var catalogs := GroupBlogs(blogs);
    var dict := MakeWordDict(blogs);
    classifiers, keys := [], [];
    var todo := catalogs.Keys;
    while todo != {}
      invariant todo <= catalogs.Keys && Chosen(keys, catalogs, catalogs.Keys - todo)
      invariant Built(classifiers, keys, blogs)
      decreases |todo|
    {
      var key :| key in todo;
      ghost var done := catalogs.Keys - todo;
      todo := todo - {key};
      assert catalogs.Keys - todo == done + {key};
      ChosenStep(keys, catalogs, done, key);
      if |catalogs[key]| >= BAYES_REF_COUNT_LOWER_BOUND {
        var cata := catalogs[key];
        assert cata == Catalogue(blogs, key);
        CatalogueWithin(blogs, key);
        var bayes := new Classifier(cata, dict, BAYES_SPAM_THRESHOLD, blogs, |blogs|);
        BuiltStep(classifiers, keys, blogs, bayes, key);
        classifiers, keys := classifiers + [bayes], keys + [key];
      }
    }
    ChosenAll(keys, catalogs, blogs);
  }
}
