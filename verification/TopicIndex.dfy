/** From topics to posts: an index of the topics' words, and the posts listed under each topic. */
module TopicIndex {
  import opened Cooccurrence
  import opened Sequences
  import opened Sorting

  // A listed post and the number of the topic's words it has.
  datatype Entry = Entry(id: string, fre: nat)

  // Of a word, the keys of the posts that have it.
  type Index = map<string, set<string>>

  // A topic: its words, their posts, the posts listed for it, and how many were found.
  datatype IndexedTopic =
    IndexedTopic(words: seq<string>, wordPosts: Index, weiboIdList: seq<Entry>, topicMessageNum: nat)

  function MessageNum(topic: IndexedTopic): real {
    topic.topicMessageNum as real
  }

  // --- Direct counting ---------------------------------------------------------------------

  // The keys of the posts that have the word.
  function Mentions(posts: seq<Post>, word: string): set<string> {
    set p | p in posts && word in p.words :: p.key
  }

  // Of these words, the ones that occur in a post with this key.
  function HitWords(posts: seq<Post>, words: seq<string>, key: string): set<string> {
    set w | w in words && key in Mentions(posts, w)
  }

  function Hits(posts: seq<Post>, words: seq<string>, key: string): nat {
    |HitWords(posts, words, key)|
  }

  // When keys are unique, these are the words the post itself has.
  lemma HitsOfPost(posts: seq<Post>, words: seq<string>, k: nat)
    requires k < |posts| && forall i, j :: 0 <= i < j < |posts| ==> posts[i].key != posts[j].key
    ensures Hits(posts, words, posts[k].key) == |set w | w in words && w in posts[k].words|
  {
    forall w ensures posts[k].key in Mentions(posts, w) <==> w in posts[k].words {
      assert posts[k] in posts;
    }
    assert HitWords(posts, words, posts[k].key) == set w | w in words && w in posts[k].words;
  }

  // The keys of the posts that belong to a topic.
  function Relevant(posts: seq<Post>, words: seq<string>, throd: nat): set<string> {
    set p | p in posts && Hits(posts, words, p.key) > 0 && Hits(posts, words, p.key) >= throd :: p.key
  }

  /** The list holds exactly the posts with enough words of the topic, each once with the number
      of words it has, most words first. */
  ghost predicate IsListing(list: seq<Entry>, posts: seq<Post>, words: seq<string>, throd: nat) {
    && (forall i, j :: 0 <= i < j < |list| ==> list[i].id != list[j].id)
    && (forall key :: (exists e :: e in list && e.id == key) <==>
          Hits(posts, words, key) > 0 && Hits(posts, words, key) >= throd)
    && (forall e :: e in list ==> e.fre == Hits(posts, words, e.id))
    && MostWordsFirst(list)
  }

  ghost predicate MostWordsFirst(list: seq<Entry>) {
    forall i, j :: 0 <= i < j < |list| ==> list[i].fre >= list[j].fre
  }

  ghost predicate MostMessagesFirst(topics: seq<IndexedTopic>) {
    forall i, j :: 0 <= i < j < |topics| ==> topics[i].topicMessageNum >= topics[j].topicMessageNum
  }

  function Fre(e: Entry): real {
    e.fre as real
  }

  // What is recorded of a topic in the end.
  ghost predicate Listed(topic: IndexedTopic, posts: seq<Post>, throd: nat, minimum: int) {
    && topic.topicMessageNum == |Relevant(posts, topic.words, throd)|
    && (if topic.topicMessageNum <= minimum then topic.weiboIdList == []
        else IsListing(topic.weiboIdList, posts, topic.words, throd))
  }

  // --- The index ---------------------------------------------------------------------------

  // The words of the topics that are large enough.
  ghost predicate IndexWord(topics: seq<IndexedTopic>, throd: nat, w: string) {
    exists k :: 0 <= k < |topics| && |topics[k].words| >= throd && w in topics[k].words
  }

  ghost predicate IndexOf(index: Index, topics: seq<IndexedTopic>, throd: nat, posts: seq<Post>) {
    && (forall w :: w in index <==> IndexWord(topics, throd, w))
    && (forall w :: w in index ==> index[w] == Mentions(posts, w))
  }

  method EmptyIndex(topics: seq<IndexedTopic>, throd: nat) returns (index: Index)
    ensures IndexOf(index, topics, throd, [])
  {
    index := map[];
    for k := 0 to |topics|
      invariant IndexOf(index, topics[..k], throd, [])
    {
      ghost var before := index;
      if |topics[k].words| >= throd {
        var words := topics[k].words;
        for j := 0 to |words|
          invariant forall w :: w in index <==> w in before || w in words[..j]
          invariant forall w :: w in index ==> index[w] == {}
        {
          if words[j] !in index {
            index := index[words[j] := {}];
          }
        }
      }
      forall w ensures w in index <==> IndexWord(topics[..k + 1], throd, w) {
        IndexWordStep(topics, throd, k, w);
      }
    }
    assert topics[..|topics|] == topics;
  }

  lemma IndexWordStep(topics: seq<IndexedTopic>, throd: nat, k: nat, w: string)
    requires k < |topics|
    ensures IndexWord(topics[..k + 1], throd, w) <==>
      IndexWord(topics[..k], throd, w) || (|topics[k].words| >= throd && w in topics[k].words)
  {
    if IndexWord(topics[..k], throd, w) {
      var i :| 0 <= i < k && |topics[..k][i].words| >= throd && w in topics[..k][i].words;
      assert topics[..k + 1][i] == topics[..k][i];
    }
    if IndexWord(topics[..k + 1], throd, w) {
      var i :| 0 <= i < k + 1 && |topics[..k + 1][i].words| >= throd && w in topics[..k + 1][i].words;
      assert i < k ==> topics[..k][i] == topics[..k + 1][i];
    }
    assert topics[..k + 1][k] == topics[k];
  }

  // Every indexed word has the keys of the posts that have it, and this key if it is among the next words.
  ghost predicate Filled(index: Index, posts: seq<Post>, next: seq<string>, key: string) {
    forall w :: w in index ==> index[w] == Mentions(posts, w) + if w in next then {key} else {}
  }

  lemma FilledWord(index: Index, posts: seq<Post>, next: seq<string>, key: string, word: string)
    requires Filled(index, posts, next, key)
    ensures word in index ==> Filled(index[word := index[word] + {key}], posts, next + [word], key)
    ensures word !in index ==> Filled(index, posts, next + [word], key)
  {
    hide Mentions;
  }

  // The scan of one post, which adds its key to each indexed word it has.
  method FillPost(before: Index, ghost posts: seq<Post>, post: Post) returns (index: Index)
    requires forall w :: w in before ==> before[w] == Mentions(posts, w)
    ensures index.Keys == before.Keys
    ensures forall w :: w in index ==> index[w] == Mentions(posts + [post], w)
  {
    index := before;
    for j := 0 to |post.words|
      invariant index.Keys == before.Keys
      invariant Filled(index, posts, post.words[..j], post.key)
    {
      assert post.words[..j + 1] == post.words[..j] + [post.words[j]];
      FilledWord(index, posts, post.words[..j], post.key, post.words[j]);
      if post.words[j] in index {
        index := index[post.words[j] := index[post.words[j]] + {post.key}];
      }
    }
    assert post.words[..|post.words|] == post.words;
    forall w | w in index ensures index[w] == Mentions(posts + [post], w) {
      MentionsStep(posts, post, w);
    }
  }

  // The scan that links posts to the indexed words they have.
  method FillIndex(empty: Index, posts: seq<Post>) returns (index: Index)
    requires forall w :: w in empty ==> empty[w] == {}
    ensures index.Keys == empty.Keys
    ensures forall w :: w in index ==> index[w] == Mentions(posts, w)
  {
    index := empty;
    for k := 0 to |posts|
      invariant index.Keys == empty.Keys
      invariant forall w :: w in index ==> index[w] == Mentions(posts[..k], w)
    {
      index := FillPost(index, posts[..k], posts[k]);
      assert posts[..k + 1] == posts[..k] + [posts[k]];
    }
    assert posts[..|posts|] == posts;
  }

  lemma MentionsStep(posts: seq<Post>, post: Post, w: string)
    ensures Mentions(posts + [post], w) == Mentions(posts, w) + if w in post.words then {post.key} else {}
  {
    forall key
      ensures key in Mentions(posts + [post], w) <==> key in Mentions(posts, w) || (w in post.words && key == post.key)
    {
      assert post in posts + [post];
      if key in Mentions(posts, w) {
        var p :| p in posts && w in p.words && p.key == key;
        assert p in posts + [post];
      }
    }
  }

  // The posts linked to a topic's word; none when it was not indexed.
  function Linked(wordPosts: Index, w: string): set<string> {
    if w in wordPosts then wordPosts[w] else {}
  }

  method LinkTopic(topic: IndexedTopic, index: Index) returns (r: IndexedTopic)
    requires forall w :: w in topic.words ==> w in index
    ensures r == topic.(wordPosts := r.wordPosts)
    ensures forall w :: w in topic.words ==> Linked(r.wordPosts, w) == index[w]
  {
    var wordPosts := topic.wordPosts;
    for j := 0 to |topic.words|
      invariant forall w :: w in topic.words[..j] ==> Linked(wordPosts, w) == index[w]
    {
      wordPosts := wordPosts[topic.words[j] := index[topic.words[j]]];
    }
    assert topic.words[..|topic.words|] == topic.words;
    r := topic.(wordPosts := wordPosts);
  }

  // --- Listing a topic's posts -------------------------------------------------------------

  // Of these words, the ones linked to this key.
  function LinkedWords(wordPosts: Index, words: seq<string>, key: string): set<string> {
    set w | w in words && key in Linked(wordPosts, w)
  }

  function Count(counts: map<string, nat>, key: string): nat {
    if key in counts then counts[key] else 0
  }

  // How often each key was met in the words' lists.
  ghost predicate CountsLinks(counts: map<string, nat>, wordPosts: Index, words: seq<string>) {
    && (forall key :: Count(counts, key) == |LinkedWords(wordPosts, words, key)|)
    && (forall key :: key in counts ==> counts[key] > 0)
  }

  method CountLinks(wordPosts: Index, words: seq<string>) returns (counts: map<string, nat>)
    requires NoDuplicates(words)
    ensures CountsLinks(counts, wordPosts, words)
  {
    counts := map[];
    for k := 0 to |words|
      invariant CountsLinks(counts, wordPosts, words[..k])
    {
      ghost var before := counts;
      var todo := Linked(wordPosts, words[k]);
      while todo != {}
        invariant todo <= Linked(wordPosts, words[k])
        invariant forall key ::
          Count(counts, key) == Count(before, key) + if key in Linked(wordPosts, words[k]) - todo then 1 else 0
        invariant forall key :: key in counts ==> counts[key] > 0
        decreases |todo|
      {
        var id :| id in todo;
        todo := todo - {id};
        if id in counts {
          counts := counts[id := counts[id] + 1];
        } else {
          counts := counts[id := 1];
        }
      }
      forall key ensures Count(counts, key) == |LinkedWords(wordPosts, words[..k + 1], key)| {
        LinkedWordsStep(wordPosts, words, k, key);
      }
    }
    assert words[..|words|] == words;
  }

  lemma LinkedWordsStep(wordPosts: Index, words: seq<string>, k: nat, key: string)
    requires NoDuplicates(words) && k < |words|
    ensures |LinkedWords(wordPosts, words[..k + 1], key)| ==
      |LinkedWords(wordPosts, words[..k], key)| + if key in Linked(wordPosts, words[k]) then 1 else 0
  {
    assert words[..k + 1] == words[..k] + [words[k]];
    assert words[k] !in LinkedWords(wordPosts, words[..k], key);
    assert LinkedWords(wordPosts, words[..k + 1], key) ==
      LinkedWords(wordPosts, words[..k], key) + if key in Linked(wordPosts, words[k]) then {words[k]} else {};
  }

  // Exactly the keys counted often enough, each once with its count.
  ghost predicate Selected(list: seq<Entry>, counts: map<string, nat>, keys: set<string>, throd: nat) {
    && (forall i, j :: 0 <= i < j < |list| ==> list[i].id != list[j].id)
    && (forall e :: e in list <==> e.id in keys && e.id in counts && e.fre == counts[e.id] >= throd)
  }

  method Select(counts: map<string, nat>, throd: nat) returns (list: seq<Entry>)
    ensures Selected(list, counts, counts.Keys, throd)
  {
    list := [];
    var todo := counts.Keys;
    while todo != {}
      invariant todo <= counts.Keys
      invariant Selected(list, counts, counts.Keys - todo, throd)
      decreases |todo|
    {
      var id :| id in todo;
      todo := todo - {id};
      if counts[id] >= throd {
        list := list + [Entry(id, counts[id])];
      }
    }
  }

  // The keys linked to enough of these words.
  function LinkedKeys(wordPosts: Index, words: seq<string>, throd: nat): set<string> {
    set w, key |
      w in words && key in Linked(wordPosts, w) && |LinkedWords(wordPosts, words, key)| >= throd :: key
  }

  // Exactly these keys, each once, with the number of words linked to it.
  ghost predicate HoldsLinks(list: seq<Entry>, wordPosts: Index, words: seq<string>, throd: nat) {
    && (forall i, j :: 0 <= i < j < |list| ==> list[i].id != list[j].id)
    && (forall e :: e in list <==> e.fre == |LinkedWords(wordPosts, words, e.id)| >= throd && e.fre > 0)
  }

  /** The keys with enough linked words are added to the topic's list, which is then sorted, or
      cleared when they are too few. */
  method ListEveryTopicWeiboId(topic: IndexedTopic, throd: nat, minimum: int)
      returns (r: IndexedTopic, ghost found: seq<Entry>)
    requires NoDuplicates(topic.words)
    ensures r == topic.(weiboIdList := r.weiboIdList, topicMessageNum := r.topicMessageNum)
    ensures HoldsLinks(found, topic.wordPosts, topic.words, throd)
    ensures r.topicMessageNum == |found| == |LinkedKeys(topic.wordPosts, topic.words, throd)|
    ensures r.topicMessageNum <= minimum ==> r.weiboIdList == []
    ensures r.topicMessageNum > minimum ==>
      MostWordsFirst(r.weiboIdList) && multiset(r.weiboIdList) == multiset(topic.weiboIdList) + multiset(found)
  {
    var counts := CountLinks(topic.wordPosts, topic.words);
    var selected := Select(counts, throd);
    found := selected;
    SelectedLinks(found, counts, topic.wordPosts, topic.words, throd);
    LinksSize(found, topic.wordPosts, topic.words, throd);
    r := topic.(topicMessageNum := |selected|);
    var sorted := Sort(topic.weiboIdList + selected, Fre);
    r := r.(weiboIdList := sorted);
    if r.topicMessageNum <= minimum {
      r := r.(weiboIdList := []);
    }
  }

  lemma LinkedKeysAre(wordPosts: Index, words: seq<string>, throd: nat, key: string)
    ensures key in LinkedKeys(wordPosts, words, throd) <==>
      |LinkedWords(wordPosts, words, key)| > 0 && |LinkedWords(wordPosts, words, key)| >= throd
  {
    if key in LinkedKeys(wordPosts, words, throd) {
      var w :| w in words && key in Linked(wordPosts, w);
      assert w in LinkedWords(wordPosts, words, key);
    }
    if |LinkedWords(wordPosts, words, key)| > 0 {
      var w :| w in LinkedWords(wordPosts, words, key);
    }
  }

  lemma SelectedLinks(list: seq<Entry>, counts: map<string, nat>, wordPosts: Index, words: seq<string>, throd: nat)
    requires CountsLinks(counts, wordPosts, words) && Selected(list, counts, counts.Keys, throd)
    ensures HoldsLinks(list, wordPosts, words, throd)
  {
    assert forall key :: Count(counts, key) == |LinkedWords(wordPosts, words, key)|;
  }

  lemma LinksSize(list: seq<Entry>, wordPosts: Index, words: seq<string>, throd: nat)
    requires HoldsLinks(list, wordPosts, words, throd)
    ensures |list| == |LinkedKeys(wordPosts, words, throd)|
  {
    var ids := Ids(list);
    forall key ensures key in Elements(ids) <==> key in LinkedKeys(wordPosts, words, throd) {
      LinkedKeysAre(wordPosts, words, throd, key);
      var e := Entry(key, |LinkedWords(wordPosts, words, key)|);
      if key in ids {
        var k :| 0 <= k < |ids| && ids[k] == key;
        assert list[k] in list && list[k].id == key;
      }
      if e in list {
        var k :| 0 <= k < |list| && list[k] == e;
        assert ids[k] == key;
      }
    }
    ElementsSize(ids);
    assert Elements(ids) == LinkedKeys(wordPosts, words, throd);
  }

  lemma LinksSorted(found: seq<Entry>, sorted: seq<Entry>, wordPosts: Index, words: seq<string>, throd: nat)
    requires HoldsLinks(found, wordPosts, words, throd) && multiset(found) == multiset(sorted)
    ensures HoldsLinks(sorted, wordPosts, words, throd)
  {
    forall e ensures e in sorted <==> e in found {
      assert e in multiset(sorted) <==> e in multiset(found);
    }
    PermutationDistinct(found, sorted);
    forall i, j | 0 <= i < j < |sorted| ensures sorted[i].id != sorted[j].id {
      assert sorted[i] in sorted && sorted[j] in sorted;
    }
  }

  // --- The index agrees with direct counting -----------------------------------------------

  // What linking leaves in a topic.
  ghost predicate LinkedTopic(topic: IndexedTopic, posts: seq<Post>, throd: nat) {
    forall w :: w in topic.words ==>
      Linked(topic.wordPosts, w) == if |topic.words| >= throd then Mentions(posts, w) else {}
  }

  // Words linked through the index, against words counted directly.
  lemma LinksAgree(topic: IndexedTopic, posts: seq<Post>, throd: nat, key: string)
    requires LinkedTopic(topic, posts, throd)
    ensures |topic.words| >= throd ==> |LinkedWords(topic.wordPosts, topic.words, key)| == Hits(posts, topic.words, key)
    ensures |topic.words| < throd ==>
      |LinkedWords(topic.wordPosts, topic.words, key)| == 0 && Hits(posts, topic.words, key) < throd
  {
    var linked := LinkedWords(topic.wordPosts, topic.words, key);
    if |topic.words| >= throd {
      assert linked == HitWords(posts, topic.words, key);
    } else {
      assert linked == {};
      ElementsSize(topic.words);
      SubsetSize(HitWords(posts, topic.words, key), Elements(topic.words));
    }
  }

  lemma HitsHaveKeys(posts: seq<Post>, words: seq<string>, throd: nat, key: string)
    ensures key in Relevant(posts, words, throd) <==> Hits(posts, words, key) > 0 && Hits(posts, words, key) >= throd
  {
    if Hits(posts, words, key) > 0 {
      var w :| w in HitWords(posts, words, key);
    }
  }

  function Ids(list: seq<Entry>): seq<string> {
    seq(|list|, k requires 0 <= k < |list| => list[k].id)
  }

  lemma ListingIds(list: seq<Entry>, posts: seq<Post>, words: seq<string>, throd: nat, key: string)
    requires IsListing(list, posts, words, throd)
    ensures NoDuplicates(Ids(list))
    ensures key in Ids(list) <==> key in Relevant(posts, words, throd)
  {
    var ids := Ids(list);
    HitsHaveKeys(posts, words, throd, key);
    if key in ids {
      var k :| 0 <= k < |ids| && ids[k] == key;
      assert list[k] in list;
    }
    if Hits(posts, words, key) > 0 && Hits(posts, words, key) >= throd {
      var e :| e in list && e.id == key;
      var k :| 0 <= k < |list| && list[k] == e;
      assert ids[k] == key;
    }
  }

  // The list is as long as the number of posts that belong to the topic.
  lemma ListingSize(list: seq<Entry>, posts: seq<Post>, words: seq<string>, throd: nat)
    requires IsListing(list, posts, words, throd)
    ensures |list| == |Relevant(posts, words, throd)|
  {
    var ids := Ids(list);
    forall key ensures NoDuplicates(ids) && (key in Elements(ids) <==> key in Relevant(posts, words, throd)) {
      ListingIds(list, posts, words, throd, key);
    }
    ElementsSize(ids);
    assert Elements(ids) == Relevant(posts, words, throd);
  }

  /** Listing through the index is listing by direct counting. */
  lemma ListedAgrees(topic: IndexedTopic, posts: seq<Post>, throd: nat, list: seq<Entry>)
    requires LinkedTopic(topic, posts, throd)
    ensures LinkedKeys(topic.wordPosts, topic.words, throd) == Relevant(posts, topic.words, throd)
    ensures HoldsLinks(list, topic.wordPosts, topic.words, throd) && MostWordsFirst(list) ==>
      IsListing(list, posts, topic.words, throd)
  {
    forall key
      ensures |LinkedWords(topic.wordPosts, topic.words, key)| >= throd <==> Hits(posts, topic.words, key) >= throd
      ensures |LinkedWords(topic.wordPosts, topic.words, key)| >= throd ==>
        |LinkedWords(topic.wordPosts, topic.words, key)| == Hits(posts, topic.words, key)
      ensures key in LinkedKeys(topic.wordPosts, topic.words, throd) <==> key in Relevant(posts, topic.words, throd)
    {
      LinksAgree(topic, posts, throd, key);
      LinkedKeysAre(topic.wordPosts, topic.words, throd, key);
      HitsHaveKeys(posts, topic.words, throd, key);
    }
    if HoldsLinks(list, topic.wordPosts, topic.words, throd) {
      forall key
        ensures (exists e :: e in list && e.id == key) <==>
          Hits(posts, topic.words, key) > 0 && Hits(posts, topic.words, key) >= throd
      {
        var hits := Hits(posts, topic.words, key);
        assert hits > 0 && hits >= throd ==> Entry(key, hits) in list;
      }
    }
  }
}
