/** Single-pass clustering of feature words into topics by average co-occurrence. */
module SinglePass {
  import opened Sequences
  import opened Cooccurrence
  import opened Sums

  // The words of a topic, in the order in which they joined it.
  type Topic = seq<string>

  // --- Distance of a word to a topic -------------------------------------------------------

  // How often a word occurs with the words of a topic, by the matrix.
  function RowSum(matrix: Matrix, topic: Topic, word: string): nat {
    if |topic| == 0 then 0
    else RowSum(matrix, Front(topic), word) + Value(matrix, word, Last(topic))
  }

  // A larger distance is a closer topic.
  function Distance(matrix: Matrix, topic: Topic, word: string): real
    requires |topic| > 0
  {
    RowSum(matrix, topic, word) as real / |topic| as real
  }

  // The distance is an average over the words of the topic: a word's own co-occurrence for a topic
  // of that word, and weighted by their sizes for two topics in one.
  lemma DistanceAverages(matrix: Matrix, topic: Topic, other: Topic, word: string, a: string)
    requires |topic| > 0 && |other| > 0
    ensures Distance(matrix, [a], word) == Value(matrix, word, a) as real
    ensures Times(|topic + other|, Distance(matrix, topic + other, word))
         == Times(|topic|, Distance(matrix, topic, word)) + Times(|other|, Distance(matrix, other, word))
  {
    DistanceToOne(matrix, word, a);
    hide RowSum, Distance, Times;
    assert |topic + other| == |topic| + |other|;
    RowSumConcat(matrix, topic, other, word);
    TimesDistance(matrix, topic, word);
    TimesDistance(matrix, other, word);
    TimesDistance(matrix, topic + other, word);
  }

  lemma {:induction false} RowSumConcat(matrix: Matrix, topic: Topic, other: Topic, word: string)
    ensures RowSum(matrix, topic + other, word) == RowSum(matrix, topic, word) + RowSum(matrix, other, word)
  {
    if |other| == 0 {
      assert topic + other == topic;
    } else {
      assert Front(topic + other) == topic + Front(other);
      RowSumConcat(matrix, topic, Front(other), word);
    }
  }

  lemma DistanceToOne(matrix: Matrix, word: string, a: string)
    ensures Distance(matrix, [a], word) == Value(matrix, word, a) as real
  {
    assert Front([a]) == [];
    assert RowSum(matrix, [a], word) == Value(matrix, word, a);
  }

  lemma TimesDistance(matrix: Matrix, topic: Topic, word: string)
    requires |topic| > 0
    ensures Times(|topic|, Distance(matrix, topic, word)) == RowSum(matrix, topic, word) as real
  {
    hide RowSum;
    TimesIsProduct(|topic|, Distance(matrix, topic, word));
  }

  lemma {:induction false} NoRow(matrix: Matrix, topic: Topic, word: string)
    requires word !in matrix
    ensures RowSum(matrix, topic, word) == 0
  {
    if |topic| == 0 {
    } else {
      NoRow(matrix, Front(topic), word);
    }
  }

  method CalWordsTopicDistance(matrix: Matrix, topic: Topic, word: string) returns (distance: real)
    requires |topic| > 0
    ensures distance == Distance(matrix, topic, word)
  {
    if word !in matrix {
      NoRow(matrix, topic, word);
      return 0.0;
    }
    var row := matrix[word];
    distance := 0.0;
    for k := 0 to |topic|
      invariant distance == RowSum(matrix, topic[..k], word) as real
    {
      assert Front(topic[..k + 1]) == topic[..k];
      if topic[k] in row {
        distance := distance + row[topic[k]] as real;
      }
    }
    assert topic[..|topic|] == topic;
    distance := distance / |topic| as real;
  }

  // --- What the pass computes --------------------------------------------------------------

  ghost predicate NonEmpty(topics: seq<Topic>) {
    forall k :: 0 <= k < |topics| ==> |topics[k]| > 0
  }

  // The index of the first topic no other topic is closer than.
  function Nearest(matrix: Matrix, topics: seq<Topic>, word: string): (k: nat)
    requires |topics| > 0 && NonEmpty(topics)
    ensures k < |topics|
  {
    if |topics| == 1 then 0
    else
      var k := Nearest(matrix, Front(topics), word);
      if Distance(matrix, topics[k], word) < Distance(matrix, Last(topics), word) then |topics| - 1 else k
  }

  ghost predicate FirstClosest(matrix: Matrix, topics: seq<Topic>, word: string, k: nat)
    requires NonEmpty(topics)
  {
    && k < |topics|
    && (forall j :: 0 <= j < |topics| ==> Distance(matrix, topics[j], word) <= Distance(matrix, topics[k], word))
    && (forall j :: 0 <= j < k ==> Distance(matrix, topics[j], word) < Distance(matrix, topics[k], word))
  }

  lemma NearestIsFirstClosest(matrix: Matrix, topics: seq<Topic>, word: string, k: nat)
    requires |topics| > 0 && NonEmpty(topics)
    ensures FirstClosest(matrix, topics, word, k) <==> k == Nearest(matrix, topics, word)
  {
    NearestIsClosest(matrix, topics, word);
    var n := Nearest(matrix, topics, word);
    if FirstClosest(matrix, topics, word, k) {
      assert Distance(matrix, topics[n], word) <= Distance(matrix, topics[k], word);
      assert Distance(matrix, topics[k], word) <= Distance(matrix, topics[n], word);
    }
  }

  lemma {:induction false} NearestIsClosest(matrix: Matrix, topics: seq<Topic>, word: string)
    requires |topics| > 0 && NonEmpty(topics)
    ensures FirstClosest(matrix, topics, word, Nearest(matrix, topics, word))
  {
    if |topics| <= 1 {
    } else {
      NearestIsClosest(matrix, Front(topics), word);
      var k := Nearest(matrix, Front(topics), word);
      forall j | 0 <= j < |topics| - 1
        ensures Distance(matrix, topics[j], word) <= Distance(matrix, topics[k], word)
        ensures j < k ==> Distance(matrix, topics[j], word) < Distance(matrix, topics[k], word)
      {
        assert Front(topics)[j] == topics[j];
      }
    }
  }

  // The word is not close enough to any topic.
  ghost predicate Apart(matrix: Matrix, threshold: real, topics: seq<Topic>, word: string)
    requires NonEmpty(topics)
  {
    forall k :: 0 <= k < |topics| ==> Distance(matrix, topics[k], word) < threshold
  }

  function Place(matrix: Matrix, threshold: real, topics: seq<Topic>, word: string): (r: seq<Topic>)
    requires |topics| > 0 && NonEmpty(topics)
    ensures NonEmpty(r) && |r| >= |topics|
  {
    var k := Nearest(matrix, topics, word);
    if Distance(matrix, topics[k], word) < threshold then topics + [[word]]
    else topics[k := topics[k] + [word]]
  }

  function Pass(matrix: Matrix, threshold: real, words: seq<string>): (topics: seq<Topic>)
    requires |words| > 0
    ensures |topics| > 0 && NonEmpty(topics)
  {
    if |words| == 1 then [words]
    else Place(matrix, threshold, Pass(matrix, threshold, Front(words)), Last(words))
  }

  /** The word starts a topic when it is below the threshold against every topic; otherwise it joins
      the first topic of greatest distance, and every other topic keeps its words. */
  ghost predicate Placed(matrix: Matrix, threshold: real, topics: seq<Topic>, word: string, placed: seq<Topic>)
    requires NonEmpty(topics)
  {
    if Apart(matrix, threshold, topics, word) then placed == topics + [[word]]
    else
      && |placed| == |topics|
      && exists k: nat ::
           && FirstClosest(matrix, topics, word, k) && placed[k] == topics[k] + [word]
           && forall j :: 0 <= j < |topics| && j != k ==> placed[j] == topics[j]
  }

  lemma PlaceIsPlaced(matrix: Matrix, threshold: real, topics: seq<Topic>, word: string)
    requires |topics| > 0 && NonEmpty(topics)
    ensures Placed(matrix, threshold, topics, word, Place(matrix, threshold, topics, word))
  {
    NearestIsClosest(matrix, topics, word);
    var k := Nearest(matrix, topics, word);
    assert FirstClosest(matrix, topics, word, k);
  }

  /** The pass starts with the first word alone, and every later word is placed among the topics of
      the words before it. */
  lemma {:induction false} PassPlaces(matrix: Matrix, threshold: real, words: seq<string>, i: nat)
    requires i < |words|
    ensures i == 0 ==> Pass(matrix, threshold, words[..i + 1]) == [[words[i]]]
    ensures i > 0 ==>
      Placed(matrix, threshold, Pass(matrix, threshold, words[..i]), words[i], Pass(matrix, threshold, words[..i + 1]))
  {
    if i == 0 {
      assert words[..1] == [words[0]];
    } else {
      assert Front(words[..i + 1]) == words[..i];
      PlaceIsPlaced(matrix, threshold, Pass(matrix, threshold, words[..i]), words[i]);
    }
  }

  // --- The topics partition the feature words ----------------------------------------------

  lemma FlatPlace(matrix: Matrix, threshold: real, topics: seq<Topic>, word: string)
    requires |topics| > 0 && NonEmpty(topics)
    ensures multiset(Flat(Place(matrix, threshold, topics, word))) == multiset(Flat(topics)) + multiset{word}
  {
    FlatJoin(topics, Nearest(matrix, topics, word), word);
    FlatAppend(topics, word);
  }

  lemma {:induction false} PassPartitions(matrix: Matrix, threshold: real, words: seq<string>)
    requires |words| > 0
    ensures multiset(Flat(Pass(matrix, threshold, words))) == multiset(words)
  {
    if |words| == 1 {
      FlatOne(words);
    } else {
      PassPartitions(matrix, threshold, Front(words));
      FlatPlace(matrix, threshold, Pass(matrix, threshold, Front(words)), Last(words));
      FrontLast(words);
    }
  }

  // --- Topics are dense --------------------------------------------------------------------

  // Every word but the first was close enough to the words before it.
  ghost predicate Dense(matrix: Matrix, threshold: real, topic: Topic) {
    forall j :: 0 < j < |topic| ==> Distance(matrix, topic[..j], topic[j]) >= threshold
  }

  ghost predicate AllDense(matrix: Matrix, threshold: real, topics: seq<Topic>) {
    forall k :: 0 <= k < |topics| ==> Dense(matrix, threshold, topics[k])
  }

  lemma DenseGrows(matrix: Matrix, threshold: real, topic: Topic, word: string)
    requires |topic| > 0 && Dense(matrix, threshold, topic)
    requires Distance(matrix, topic, word) >= threshold
    ensures Dense(matrix, threshold, topic + [word])
  {
    var grown := topic + [word];
    forall j | 0 < j < |grown| ensures Distance(matrix, grown[..j], grown[j]) >= threshold {
      if j < |topic| {
        assert grown[..j] == topic[..j];
      } else {
        assert grown[..j] == topic;
      }
    }
  }

  lemma {:induction false} PassIsDense(matrix: Matrix, threshold: real, words: seq<string>)
    requires |words| > 0
    ensures AllDense(matrix, threshold, Pass(matrix, threshold, words))
  {
    if |words| <= 1 {
    } else {
      PassIsDense(matrix, threshold, Front(words));
      var topics, word := Pass(matrix, threshold, Front(words)), Last(words);
      var k := Nearest(matrix, topics, word);
      if Distance(matrix, topics[k], word) >= threshold {
        DenseGrows(matrix, threshold, topics[k], word);
      }
    }
  }

  // --- Total co-occurrence in a topic ------------------------------------------------------

  // How often a word occurs with the words of a topic, by the posts.
  function TogetherWith(posts: seq<Post>, topic: Topic, word: string): nat {
    if |topic| == 0 then 0
    else TogetherWith(posts, Front(topic), word) + Together(posts, word, Last(topic))
  }

  // Over all pairs of a topic's words, how often the two occur together.
  function Cohesion(posts: seq<Post>, topic: Topic): nat {
    if |topic| == 0 then 0
    else Cohesion(posts, Front(topic)) + TogetherWith(posts, Front(topic), Last(topic))
  }

  // The same by the matrix.
  function Cohesiveness(matrix: Matrix, topic: Topic): nat {
    if |topic| == 0 then 0
    else Cohesiveness(matrix, Front(topic)) + RowSum(matrix, Front(topic), Last(topic))
  }

  lemma {:induction false} RowSumCounts(matrix: Matrix, features: set<string>, posts: seq<Post>, topic: Topic,
          word: string)
    requires Counts(matrix, features, posts) && word in features && word !in topic
    requires forall w :: w in topic ==> w in features
    ensures RowSum(matrix, topic, word) == TogetherWith(posts, topic, word)
  {
    if |topic| == 0 {
    } else {
      assert Last(topic) in topic;
      RowSumCounts(matrix, features, posts, Front(topic), word);
    }
  }

  lemma {:induction false} CohesivenessCounts(matrix: Matrix, features: set<string>, posts: seq<Post>, topic: Topic)
    requires Counts(matrix, features, posts)
    requires NoDuplicates(topic) && forall w :: w in topic ==> w in features
    ensures Cohesiveness(matrix, topic) == Cohesion(posts, topic)
  {
    if |topic| == 0 {
    } else {
      CohesivenessCounts(matrix, features, posts, Front(topic));
      assert Last(topic) in topic;
      RowSumCounts(matrix, features, posts, Front(topic), Last(topic));
    }
  }

  // The number of pairs of n things.
  function Pairs(n: nat): nat {
    if n == 0 then 0 else Pairs(n - 1) + n - 1
  }

  lemma {:induction false} PairsHalf(n: nat)
    ensures Pairs(n) == n * (n - 1) / 2
  {
    if n == 0 {
    } else {
      PairsHalf(n - 1);
      assert n * (n - 1) == (n - 1) * (n - 2) + 2 * (n - 1);
    }
  }

  lemma PairsBound(n: nat, threshold: real)
    ensures Times(Pairs(n), threshold) == (n * (n - 1) / 2) as real * threshold
  {
    PairsHalf(n);
    TimesIsProduct(Pairs(n), threshold);
  }

  lemma AverageTimesSize(sum: real, size: nat, threshold: real)
    requires size > 0 && sum / size as real >= threshold
    ensures sum >= Times(size, threshold)
  {
    TimesIsProduct(size, threshold);
    assert sum == sum / size as real * size as real;
    assert (sum / size as real - threshold) * size as real >= 0.0;
  }

  lemma DenseFront(matrix: Matrix, threshold: real, topic: Topic)
    requires |topic| > 0 && Dense(matrix, threshold, topic)
    ensures Dense(matrix, threshold, Front(topic))
    ensures RowSum(matrix, Front(topic), Last(topic)) as real >= Times(|topic| - 1, threshold)
  {
    var n := |topic| - 1;
    forall j | 0 < j < n ensures Distance(matrix, Front(topic)[..j], Front(topic)[j]) >= threshold {
      assert Front(topic)[..j] == topic[..j];
    }
    if n > 0 {
      assert Distance(matrix, topic[..n], topic[n]) >= threshold;
      AverageTimesSize(RowSum(matrix, topic[..n], topic[n]) as real, n, threshold);
    }
  }

  lemma {:induction false} DenseCohesiveness(matrix: Matrix, threshold: real, topic: Topic)
    requires Dense(matrix, threshold, topic)
    ensures Cohesiveness(matrix, topic) as real >= Times(Pairs(|topic|), threshold)
  {
    if |topic| == 0 {
    } else {
      DenseFront(matrix, threshold, topic);
      DenseCohesiveness(matrix, threshold, Front(topic));
      TimesMore(Pairs(|topic| - 1), |topic| - 1, threshold);
    }
  }

  // Each topic's words are distinct feature words.
  lemma TopicWords(matrix: Matrix, threshold: real, words: seq<string>, topic: Topic)
    requires |words| > 0 && NoDuplicates(words)
    requires topic in Pass(matrix, threshold, words)
    ensures NoDuplicates(topic)
    ensures forall w :: w in topic ==> w in words
  {
    var topics := Pass(matrix, threshold, words);
    PassPartitions(matrix, threshold, words);
    PermutationDistinct(words, Flat(topics));
    var k :| 0 <= k < |topics| && topics[k] == topic;
    FlatDistinct(topics, k);
    forall w | w in topic ensures w in words {
      FlatMember(topics, k, w);
      assert w in multiset(Flat(topics));
    }
  }

  lemma TopicIsDense(matrix: Matrix, threshold: real, words: seq<string>, topic: Topic)
    requires |words| > 0 && NoDuplicates(words)
    requires topic in Pass(matrix, threshold, words)
    ensures Dense(matrix, threshold, topic) && NoDuplicates(topic)
    ensures forall w :: w in topic ==> w in Elements(words)
  {
    PassIsDense(matrix, threshold, words);
    TopicWords(matrix, threshold, words, topic);
  }

  /** With the matrix of a scan, the words of a topic occur together at least threshold times for
      every pair of them, that is n(n-1)/2 times the threshold (PairsBound). */
  lemma {:induction false} PassCohesion(matrix: Matrix, threshold: real, words: seq<string>, posts: seq<Post>,
          topic: Topic)
    requires |words| > 0 && NoDuplicates(words)
    requires Counts(matrix, Elements(words), posts)
    requires topic in Pass(matrix, threshold, words)
    ensures Cohesion(posts, topic) as real >= Times(Pairs(|topic|), threshold)
  {
    TopicIsDense(matrix, threshold, words, topic);
    DenseCohesiveness(matrix, threshold, topic);
    CohesivenessCounts(matrix, Elements(words), posts, topic);
  }

  // --- Seeds -------------------------------------------------------------------------------

  // The word each topic started with.
  function Seeds(topics: seq<Topic>): (seeds: seq<string>)
    requires NonEmpty(topics)
  {
    seq(|topics|, k requires 0 <= k < |topics| => topics[k][0])
  }

  lemma SeedsPlace(matrix: Matrix, threshold: real, topics: seq<Topic>, word: string)
    requires |topics| > 0 && NonEmpty(topics)
    ensures Seeds(Place(matrix, threshold, topics, word)) ==
      Seeds(topics) + if Apart(matrix, threshold, topics, word) then [word] else []
  {
    NearestIsClosest(matrix, topics, word);
    var placed := Place(matrix, threshold, topics, word);
    assert forall k :: 0 <= k < |topics| ==> placed[k][0] == topics[k][0];
  }

  lemma {:induction false} SeedsAreWords(matrix: Matrix, threshold: real, words: seq<string>, w: string)
    requires |words| > 0 && w in Seeds(Pass(matrix, threshold, words))
    ensures w in words
  {
    if |words| <= 1 {
    } else {
      SeedsPlace(matrix, threshold, Pass(matrix, threshold, Front(words)), Last(words));
      if w != Last(words) {
        SeedsAreWords(matrix, threshold, Front(words), w);
      }
    }
  }

  // Whether the last word starts a topic.
  lemma LastSeed(matrix: Matrix, threshold: real, words: seq<string>)
    requires |words| > 1 && NoDuplicates(words)
    ensures Last(words) in Seeds(Pass(matrix, threshold, words)) <==>
      Apart(matrix, threshold, Pass(matrix, threshold, Front(words)), Last(words))
  {
    var before := Front(words);
    SeedsPlace(matrix, threshold, Pass(matrix, threshold, before), Last(words));
    if Last(words) in Seeds(Pass(matrix, threshold, before)) {
      SeedsAreWords(matrix, threshold, before, Last(words));
    }
  }

  // The last word does not change whether another one did.
  lemma OtherSeed(matrix: Matrix, threshold: real, words: seq<string>, w: string)
    requires |words| > 1 && w != Last(words)
    ensures w in Seeds(Pass(matrix, threshold, words)) <==> w in Seeds(Pass(matrix, threshold, Front(words)))
  {
    SeedsPlace(matrix, threshold, Pass(matrix, threshold, Front(words)), Last(words));
  }

  /** A word starts a topic exactly when it was below the threshold against every topic that
      existed when its turn came; the first word always does. */
  lemma {:induction false} SeedsExactly(matrix: Matrix, threshold: real, words: seq<string>, i: nat)
    requires i < |words| && NoDuplicates(words)
    ensures words[i] in Seeds(Pass(matrix, threshold, words)) <==>
      i == 0 || Apart(matrix, threshold, Pass(matrix, threshold, words[..i]), words[i])
  {
    var last := |words| - 1;
    if last == 0 {
      assert Seeds(Pass(matrix, threshold, words))[0] == words[0];
    } else if i == last {
      assert words[..i] == Front(words);
      LastSeed(matrix, threshold, words);
    } else {
      assert Front(words)[..i] == words[..i] && Front(words)[i] == words[i];
      OtherSeed(matrix, threshold, words, words[i]);
      SeedsExactly(matrix, threshold, Front(words), i);
    }
  }
}
