/** The topic clusterer: scanning posts, the single pass over the feature words, and the posts
    listed under each topic. */
module TopicClusters {
  import opened Cooccurrence
  import opened Sequences
  import opened SinglePass
  import opened Sorting
  import opened TopicIndex

  function WordLists(topics: seq<IndexedTopic>): (lists: seq<seq<string>>)
    ensures |lists| == |topics|
    ensures forall k :: 0 <= k < |topics| ==> lists[k] == topics[k].words
  {
    seq(|topics|, k requires 0 <= k < |topics| => topics[k].words)
  }

  // Fresh topics have nothing linked or listed yet.
  ghost predicate Fresh(topic: IndexedTopic) {
    topic.wordPosts == map[] && topic.weiboIdList == []
  }

  ghost predicate AllFresh(topics: seq<IndexedTopic>) {
    forall k :: 0 <= k < |topics| ==> Fresh(topics[k])
  }

  ghost predicate AllListed(topics: seq<IndexedTopic>, posts: seq<Post>, throd: nat, minimum: int) {
    forall k :: 0 <= k < |topics| ==> Listed(topics[k], posts, throd, minimum)
  }

  // The first k topics are linked to their posts, the others are as before.
  ghost predicate LinkedUpTo(topics: seq<IndexedTopic>, before: seq<IndexedTopic>, k: nat, posts: seq<Post>, throd: nat)
  {
    && |topics| == |before|
    && (forall j :: 0 <= j < |topics| ==>
         topics[j].words == before[j].words && topics[j].weiboIdList == before[j].weiboIdList)
    && (forall j :: 0 <= j < |topics| && j < k ==> LinkedTopic(topics[j], posts, throd))
    && (forall j :: k <= j < |topics| ==> topics[j] == before[j])
  }

  // A new topic of the word, or the word in topic k.
  lemma WordJoins(topics: seq<IndexedTopic>, k: nat, word: string)
    requires k < |topics| && AllFresh(topics)
    ensures var started := topics + [IndexedTopic([word], map[], [], 0)];
      WordLists(started) == WordLists(topics) + [[word]] && AllFresh(started)
    ensures var joined := topics[k := topics[k].(words := topics[k].words + [word])];
      WordLists(joined) == WordLists(topics)[k := WordLists(topics)[k] + [word]] && AllFresh(joined)
  {}

  lemma WordsIndexed(empty: Index, topics: seq<IndexedTopic>, throd: nat)
    requires IndexOf(empty, topics, throd, [])
    ensures forall w :: w in empty ==> empty[w] == {}
    ensures forall k, w :: 0 <= k < |topics| && |topics[k].words| >= throd && w in topics[k].words ==> w in empty
  {
    assert forall k, w :: 0 <= k < |topics| && |topics[k].words| >= throd && w in topics[k].words ==>
      IndexWord(topics, throd, w);
  }

  lemma LargeLinked(topic: IndexedTopic, index: Index, posts: seq<Post>, throd: nat)
    requires |topic.words| >= throd && forall w :: w in topic.words ==> w in index
    requires forall w :: w in topic.words ==> Linked(topic.wordPosts, w) == index[w] == Mentions(posts, w)
    ensures LinkedTopic(topic, posts, throd)
  {
  }

  lemma SmallLinked(topic: IndexedTopic, posts: seq<Post>, throd: nat)
    requires Fresh(topic) && |topic.words| < throd
    ensures LinkedTopic(topic, posts, throd)
  {
  }

  class Cluster {
    // The feature words, in the order of the map that holds them.
    const words: seq<string>
    const belongTopicThrod: nat
    const minTopicMessageNum: int

    var coCcurMatrix: Matrix
    var clusterList: seq<IndexedTopic>

    // The posts scanned so far.
    ghost var scanned: seq<Post>

    /** The matrix holds the co-occurrences of the feature words over the scanned posts. */
    ghost predicate Valid()
      reads this
    {
      NoDuplicates(words) && Counts(coCcurMatrix, Elements(words), scanned)
    }

    constructor (words: seq<string>, belongTopicThrod: nat, minTopicMessageNum: int)
      requires NoDuplicates(words)
      ensures Valid() && scanned == [] && clusterList == []
      ensures this.words == words && this.belongTopicThrod == belongTopicThrod
      ensures this.minTopicMessageNum == minTopicMessageNum
    {
      this.words := words;
      this.belongTopicThrod := belongTopicThrod;
      this.minTopicMessageNum := minTopicMessageNum;
      coCcurMatrix := map[];
      clusterList := [];
      scanned := [];
    }

    method CalWordsCoccurrence(posts: seq<Post>)
      requires Valid()
      modifies `coCcurMatrix, `scanned
      ensures Valid() && scanned == old(scanned) + posts
    {
      for k := 0 to |posts|
        invariant Valid() && scanned == old(scanned) + posts[..k]
      {
        var kept := FeatureWords(posts[k].words, Elements(words));
        var counted := CountPost(coCcurMatrix, kept);
        CountsStep(coCcurMatrix, Elements(words), scanned, posts[k], kept, counted);
        assert posts[..k + 1] == posts[..k] + [posts[k]];
        coCcurMatrix, scanned := counted, scanned + [posts[k]];
      }
      assert posts[..|posts|] == posts;
    }

    // The closest topic, searched from a value below every distance.
    method FindNearest(word: string) returns (belong: nat, maxDistance: real)
      requires |clusterList| > 0 && NonEmpty(WordLists(clusterList))
      ensures belong == Nearest(coCcurMatrix, WordLists(clusterList), word)
      ensures maxDistance == Distance(coCcurMatrix, WordLists(clusterList)[belong], word)
    {
      ghost var lists := WordLists(clusterList);
      maxDistance := -1.0;
      belong := 0;
      for k := 0 to |clusterList|
        invariant k == 0 ==> maxDistance == -1.0
        invariant k > 0 ==> FirstClosest(coCcurMatrix, lists[..k], word, belong)
        invariant k > 0 ==> maxDistance == Distance(coCcurMatrix, lists[belong], word)
      {
        assert lists[..k + 1] == lists[..k] + [lists[k]];
        var distance := CalWordsTopicDistance(coCcurMatrix, clusterList[k].words, word);
        if maxDistance < distance {
          maxDistance := distance;
          belong := k;
        }
      }
      assert lists[..|clusterList|] == lists;
      NearestIsFirstClosest(coCcurMatrix, lists, word, belong);
    }

    // One word finds its place.
    method PlaceWord(threshold: real, word: string)
      requires |clusterList| > 0 && NonEmpty(WordLists(clusterList)) && AllFresh(clusterList)
      modifies `clusterList
      ensures WordLists(clusterList) == Place(coCcurMatrix, threshold, old(WordLists(clusterList)), word)
      ensures Placed(coCcurMatrix, threshold, old(WordLists(clusterList)), word, WordLists(clusterList))
      ensures AllFresh(clusterList)
    {
      var belong, maxDistance := FindNearest(word);
      PlaceIsPlaced(coCcurMatrix, threshold, WordLists(clusterList), word);
      WordJoins(clusterList, belong, word);
      hide Placed, Distance, AllFresh, WordLists;
      if maxDistance < threshold {
        clusterList := clusterList + [IndexedTopic([word], map[], [], 0)];
      } else {
        var topic := clusterList[belong];
        clusterList := clusterList[belong := topic.(words := topic.words + [word])];
      }
    }

    method MatchWeiboIDToTopic(posts: seq<Post>)
      requires AllFresh(clusterList)
      modifies `clusterList
      ensures WordLists(clusterList) == old(WordLists(clusterList))
      ensures forall k :: 0 <= k < |clusterList| ==>
        LinkedTopic(clusterList[k], posts, belongTopicThrod) && clusterList[k].weiboIdList == []
    {
      var empty := EmptyIndex(clusterList, belongTopicThrod);
      WordsIndexed(empty, clusterList, belongTopicThrod);
      hide IndexOf, IndexWord;
      var index := FillIndex(empty, posts);
      ghost var before := clusterList;
      for k := 0 to |clusterList|
        invariant LinkedUpTo(clusterList, before, k, posts, belongTopicThrod)
      {
        hide LinkedTopic;
        if |clusterList[k].words| >= belongTopicThrod {
          var topic := LinkTopic(clusterList[k], index);
          LargeLinked(topic, index, posts, belongTopicThrod);
          clusterList := clusterList[k := topic];
        } else {
          SmallLinked(clusterList[k], posts, belongTopicThrod);
        }
      }
      assert WordLists(clusterList) == WordLists(before);
    }

    method ListAllTopicWeiboId(ghost posts: seq<Post>)
      requires forall k :: 0 <= k < |clusterList| ==>
        LinkedTopic(clusterList[k], posts, belongTopicThrod) && clusterList[k].weiboIdList == []
      requires forall k :: 0 <= k < |clusterList| ==> NoDuplicates(clusterList[k].words)
      modifies `clusterList
      ensures WordLists(clusterList) == old(WordLists(clusterList))
      ensures AllListed(clusterList, posts, belongTopicThrod, minTopicMessageNum)
    {
      ghost var before := clusterList;
      for k := 0 to |clusterList|
        invariant |clusterList| == |before|
        invariant forall j :: 0 <= j < k ==> Listed(clusterList[j], posts, belongTopicThrod, minTopicMessageNum)
        invariant forall j :: 0 <= j < |before| ==> clusterList[j].words == before[j].words
        invariant forall j :: k <= j < |before| ==> clusterList[j] == before[j]
      {
        var topic, found := ListEveryTopicWeiboId(clusterList[k], belongTopicThrod, minTopicMessageNum);
        if topic.topicMessageNum > minTopicMessageNum {
          LinksSorted(found, topic.weiboIdList, clusterList[k].wordPosts, clusterList[k].words, belongTopicThrod);
        }
        ListedAgrees(clusterList[k], posts, belongTopicThrod, topic.weiboIdList);
        clusterList := clusterList[k := topic];
      }
      assert WordLists(clusterList) == WordLists(before);
    }

    /** The topics are the outcome of the single pass over the feature words, in descending order
        of their message numbers, each with exactly the posts that belong to it. */
    method Singlepass(threshold: real, posts: seq<Post>)
      requires Valid() && |words| > 0 && clusterList == []
      modifies `clusterList
      ensures Valid()
      ensures multiset(WordLists(clusterList)) == multiset(Pass(coCcurMatrix, threshold, words))
      ensures AllListed(clusterList, posts, belongTopicThrod, minTopicMessageNum)
      ensures MostMessagesFirst(clusterList)
    {
      clusterList := [IndexedTopic([words[0]], map[], [], 0)];
      assert words[..1] == [words[0]] && WordLists(clusterList) == [words[..1]];
      for k := 1 to |words|
        invariant WordLists(clusterList) == Pass(coCcurMatrix, threshold, words[..k])
        invariant AllFresh(clusterList)
      {
        assert Front(words[..k + 1]) == words[..k];
        PlaceWord(threshold, words[k]);
      }
      assert words[..|words|] == words;
      MatchWeiboIDToTopic(posts);
      forall k | 0 <= k < |clusterList| ensures NoDuplicates(clusterList[k].words) {
        assert WordLists(clusterList)[k] == clusterList[k].words;
        TopicWords(coCcurMatrix, threshold, words, clusterList[k].words);
      }
      ListAllTopicWeiboId(posts);
      SortTopic(posts);
    }

    method SortTopic(ghost posts: seq<Post>)
      requires AllListed(clusterList, posts, belongTopicThrod, minTopicMessageNum)
      modifies `clusterList
      ensures multiset(WordLists(clusterList)) == old(multiset(WordLists(clusterList)))
      ensures AllListed(clusterList, posts, belongTopicThrod, minTopicMessageNum)
      ensures MostMessagesFirst(clusterList)
    {
      var sorted := Sort(clusterList, MessageNum);
      forall k | 0 <= k < |sorted| ensures Listed(sorted[k], posts, belongTopicThrod, minTopicMessageNum) {
        assert sorted[k] in multiset(sorted);
        assert sorted[k] in clusterList;
      }
      MapPermuted((t: IndexedTopic) => t.words, sorted, clusterList, WordLists(sorted), WordLists(clusterList));
      assert forall i, j :: 0 <= i < j < |sorted| ==> MessageNum(sorted[i]) >= MessageNum(sorted[j]);
      clusterList := sorted;
    }
  }
}
