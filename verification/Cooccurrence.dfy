/** The co-occurrence matrix of feature words over the scanned posts. */
module Cooccurrence {
  import opened Sequences
  import opened Sums

  // A post: the key it is indexed under and its words, with repetitions.
  datatype Post = Post(key: string, words: seq<string>)

  // What is stored of a word: the other words it occurred with, and how often.
  type Row = map<string, nat>
  type Matrix = map<string, Row>

  // --- Meaning -----------------------------------------------------------------------------

  // How often a and b occur together: once for every occurrence of a and every one of b in a post.
  function Together(posts: seq<Post>, a: string, b: string): nat {
    if |posts| == 0 then 0
    else Together(Front(posts), a, b) + multiset(Last(posts).words)[a] * multiset(Last(posts).words)[b]
  }

  // The pairs of an occurrence of a and one of b in the same post, by post and positions.
  function OccurrencePairs(posts: seq<Post>, a: string, b: string): set<(nat, nat, nat)> {
    set k: nat, i, j |
      k < |posts| && i in PositionsOf(posts[k].words, a) && j in PositionsOf(posts[k].words, b) :: (k, i, j)
  }

  // The pairs of post k.
  function PairsWith(k: nat, s: set<nat>, t: set<nat>): set<(nat, nat, nat)> {
    set i, j | i in s && j in t :: (k, i, j)
  }

  lemma {:induction false} RowOfPairs(k: nat, i: nat, t: set<nat>)
    ensures |PairsWith(k, {i}, t)| == |t|
    decreases |t|
  {
    if t == {} {
      assert PairsWith(k, {i}, t) == {};
    } else {
      var j :| j in t;
      RowOfPairs(k, i, t - {j});
      assert PairsWith(k, {i}, t) == PairsWith(k, {i}, t - {j}) + {(k, i, j)};
    }
  }

  lemma {:induction false} PairsSize(k: nat, s: set<nat>, t: set<nat>)
    ensures |PairsWith(k, s, t)| == Copies(|s|, |t|)
    decreases |s|
  {
    if s == {} {
      assert PairsWith(k, s, t) == {};
    } else {
      var i :| i in s;
      PairsSize(k, s - {i}, t);
      RowOfPairs(k, i, t);
      assert PairsWith(k, s, t) == PairsWith(k, s - {i}, t) + PairsWith(k, {i}, t);
    }
  }

  // The pairs of the last post and those of the posts before it.
  lemma PairsOfLast(posts: seq<Post>, a: string, b: string)
    requires |posts| > 0
    ensures var before, words := OccurrencePairs(Front(posts), a, b), Last(posts).words;
      var last := PairsWith(|posts| - 1, PositionsOf(words, a), PositionsOf(words, b));
      OccurrencePairs(posts, a, b) == before + last && before !! last
  {
    hide PositionsOf;
  }

  /** So the count is the number of those pairs. */
  lemma {:induction false} TogetherIsPairs(posts: seq<Post>, a: string, b: string)
    ensures Together(posts, a, b) == |OccurrencePairs(posts, a, b)|
  {
    if |posts| == 0 {
      assert OccurrencePairs(posts, a, b) == {};
    } else {
      hide OccurrencePairs, PairsWith, PositionsOf;
      var words := Last(posts).words;
      TogetherIsPairs(Front(posts), a, b);
      PairsOfLast(posts, a, b);
      PositionsSize(words, a);
      PositionsSize(words, b);
      PairsSize(|posts| - 1, PositionsOf(words, a), PositionsOf(words, b));
      CopiesIsProduct(multiset(words)[a], multiset(words)[b]);
    }
  }

  lemma {:induction false} TogetherSymmetric(posts: seq<Post>, a: string, b: string)
    ensures Together(posts, a, b) == Together(posts, b, a)
  {
    if |posts| == 0 {
    } else {
      TogetherSymmetric(Front(posts), a, b);
      Commute(multiset(Last(posts).words)[a], multiset(Last(posts).words)[b]);
    }
  }

  lemma Commute(m: nat, n: nat)
    ensures m * n == n * m
  {}

  function RowValue(row: Row, b: string): nat {
    if b in row then row[b] else 0
  }

  function Value(matrix: Matrix, a: string, b: string): nat {
    if a in matrix then RowValue(matrix[a], b) else 0
  }

  // Only positive counts are stored, and none on the diagonal.
  ghost predicate ProperRow(a: string, row: Row) {
    a !in row && forall b :: b in row ==> row[b] > 0
  }

  ghost predicate Proper(matrix: Matrix) {
    forall a :: a in matrix ==> ProperRow(a, matrix[a])
  }

  // Some post has the word.
  ghost predicate Occurs(posts: seq<Post>, a: string) {
    exists k :: 0 <= k < |posts| && a in posts[k].words
  }

  /** The matrix holds exactly the co-occurrences of the feature words: each entry off the diagonal
      is the number of times the two occur together, is missing when that number is 0, and the
      diagonal is never stored. A feature word has a row exactly when some post has it. */
  ghost predicate Counts(matrix: Matrix, features: set<string>, posts: seq<Post>) {
    && (forall a, b :: a in features && b in features && a != b ==> Value(matrix, a, b) == Together(posts, a, b))
    && Proper(matrix)
    && (forall a :: a in matrix ==> forall b :: b in matrix[a] ==> b in features)
    && (forall a :: a in matrix <==> a in features && Occurs(posts, a))
  }

  /** So the matrix is symmetric although its rows are filled separately, and an entry is missing
      exactly when the two words never occur together. */
  lemma {:induction false} CountsSymmetric(matrix: Matrix, features: set<string>, posts: seq<Post>, a: string,
          b: string)
    requires Counts(matrix, features, posts)
    ensures Value(matrix, a, b) == Value(matrix, b, a)
    ensures a in features && b in features && a != b ==>
      (a in matrix && b in matrix[a] <==> Together(posts, a, b) > 0)
  {
    TogetherSymmetric(posts, a, b);
  }

  // --- Filling -----------------------------------------------------------------------------

  // The words of a post that are feature words, in order.
  method FeatureWords(words: seq<string>, features: set<string>) returns (kept: seq<string>)
    ensures Restricted(kept, words, features)
  {
    kept := [];
    for k := 0 to |words|
      invariant Restricted(kept, words[..k], features)
    {
      assert words[..k + 1] == words[..k] + [words[k]];
      if words[k] in features {
        kept := kept + [words[k]];
      }
    }
    assert words[..|words|] == words;
  }

  // One occurrence of a word counts once with every occurrence of every other word of the post.
  method CountWith(row: Row, first: string, words: seq<string>) returns (r: Row)
    requires ProperRow(first, row)
    ensures ProperRow(first, r)
    ensures forall b :: b in r ==> b in row || b in words
    ensures forall b :: b != first ==> RowValue(r, b) == RowValue(row, b) + multiset(words)[b]
  {
    r := row;
    for k := 0 to |words|
      invariant ProperRow(first, r)
      invariant forall b :: b in r ==> b in row || b in words
      invariant forall b :: b != first ==> RowValue(r, b) == RowValue(row, b) + multiset(words[..k])[b]
    {
      assert words[..k + 1] == words[..k] + [words[k]];
      var second := words[k];
      if first == second {
        continue;
      }
      if second in r {
        r := r[second := r[second] + 1];
      } else {
        r := r[second := 1];
      }
    }
    assert words[..|words|] == words;
  }

  // What the matrix holds after the first n words of a post have been taken as first words.
  ghost predicate Partly(matrix: Matrix, before: Matrix, words: seq<string>, n: nat)
    requires n <= |words|
  {
    && Proper(matrix)
    && (forall a, b :: a != b ==>
          Value(matrix, a, b) == Value(before, a, b) + Copies(multiset(words[..n])[a], multiset(words)[b]))
    && (forall a :: a in matrix ==> forall b :: b in matrix[a] ==> b in words || (a in before && b in before[a]))
    && (forall a :: a in matrix <==> a in before || a in words[..n])
  }

  // The row of words[n] after every word of the post has been counted with it once more.
  ghost predicate CountedOnce(row: Row, matrix: Matrix, words: seq<string>, n: nat)
    requires n < |words|
  {
    && ProperRow(words[n], row)
    && (forall b :: b in row ==> b in words || (words[n] in matrix && b in matrix[words[n]]))
    && (forall b :: b != words[n] ==> RowValue(row, b) == Value(matrix, words[n], b) + multiset(words)[b])
  }

  lemma TakeOneMore(words: seq<string>, n: nat, a: string)
    requires n < |words|
    ensures multiset(words[..n + 1])[a] == multiset(words[..n])[a] + if a == words[n] then 1 else 0
    ensures a in words[..n + 1] <==> a in words[..n] || a == words[n]
  {
    assert words[..n + 1] == words[..n] + [words[n]];
  }

  lemma ValueStep(matrix: Matrix, before: Matrix, words: seq<string>, n: nat, row: Row, a: string,
          b: string)
    requires n < |words| && a != b && CountedOnce(row, matrix, words, n)
    requires Value(matrix, a, b) == Value(before, a, b) + Copies(multiset(words[..n])[a], multiset(words)[b])
    ensures Value(matrix[words[n] := row], a, b)
         == Value(before, a, b) + Copies(multiset(words[..n + 1])[a], multiset(words)[b])
  {
    TakeOneMore(words, n, a);
  }

  lemma PartlyStep(matrix: Matrix, before: Matrix, words: seq<string>, n: nat, row: Row)
    requires n < |words| && Partly(matrix, before, words, n)
    requires CountedOnce(row, matrix, words, n)
    ensures Partly(matrix[words[n] := row], before, words, n + 1)
  {
    var next := matrix[words[n] := row];
    forall a, b | a != b
      ensures Value(next, a, b) == Value(before, a, b) + Copies(multiset(words[..n + 1])[a], multiset(words)[b])
    {
      ValueStep(matrix, before, words, n, row, a, b);
    }
    forall a ensures a in next <==> a in before || a in words[..n + 1] {
      TakeOneMore(words, n, a);
    }
  }

  // A post's feature words are counted against each other.
  method CountPost(before: Matrix, words: seq<string>) returns (matrix: Matrix)
    requires Proper(before)
    ensures Partly(matrix, before, words, |words|)
  {
    matrix := before;
    for n := 0 to |words|
      invariant Partly(matrix, before, words, n)
    {
      var first := words[n];
      var row: Row;
      if first !in matrix {
        row := CountWith(map[], first, words);
      } else {
        assert ProperRow(first, matrix[first]);
        row := CountWith(matrix[first], first, words);
      }
      PartlyStep(matrix, before, words, n, row);
      matrix := matrix[first := row];
    }
  }

  // Word counts of a post restricted to the feature words.
  ghost predicate Restricted(words: seq<string>, all: seq<string>, features: set<string>) {
    && (forall w :: multiset(words)[w] == if w in features then multiset(all)[w] else 0)
    && (forall w :: w in words <==> w in all && w in features)
  }

  // One more post scanned.
  lemma CountsStep(matrix: Matrix, features: set<string>, posts: seq<Post>, post: Post,
          words: seq<string>, counted: Matrix)
    requires Counts(matrix, features, posts)
    requires Restricted(words, post.words, features)
    requires Partly(counted, matrix, words, |words|)
    ensures Counts(counted, features, posts + [post])
  {
    assert Front(posts + [post]) == posts && words[..|words|] == words;
    forall a ensures Occurs(posts + [post], a) <==> Occurs(posts, a) || a in post.words {
      OccursStep(posts, post, a);
    }
    forall a, b | a in features && b in features && a != b
      ensures Value(counted, a, b) == Together(posts + [post], a, b)
    {
      CopiesIsProduct(multiset(words)[a], multiset(words)[b]);
    }
  }

  lemma OccursStep(posts: seq<Post>, post: Post, a: string)
    ensures Occurs(posts + [post], a) <==> Occurs(posts, a) || a in post.words
  {
    if Occurs(posts, a) {
      var i :| 0 <= i < |posts| && a in posts[i].words;
      assert (posts + [post])[i] == posts[i];
    }
    if a in post.words {
      assert (posts + [post])[|posts|] == post;
    }
  }
}
