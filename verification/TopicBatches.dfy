/** Storing a topic's posts: the listed keys are split, grouped by table and inserted in batches. */
module TopicBatches {
  import opened Cooccurrence
  import opened Sequences
  import opened TopicIndex
  import opened Wrappers

  // --- Keys --------------------------------------------------------------------------------

  const MID_LENGTH := 16

  // A key is the mid of a post followed by the name of its table. None is std::out_of_range.
  function Split(key: string): Option<(string, string)> {
    if |key| < MID_LENGTH then None else Some((key[..MID_LENGTH], key[MID_LENGTH..]))
  }

  lemma SplitUndoesJoin(mid: string, table: string)
    ensures Split(mid + table) == Some((mid, table)) <==> |mid| == MID_LENGTH
  {
    if |mid| == MID_LENGTH {
      assert (mid + table)[..MID_LENGTH] == mid && (mid + table)[MID_LENGTH..] == table;
    }
  }

  lemma JoinUndoesSplit(key: string)
    ensures Split(key).Some? ==> Split(key).value.0 + Split(key).value.1 == key
    ensures Split(key).None? <==> |key| < MID_LENGTH
  {}

  ghost predicate WellFormed(keys: seq<string>) {
    forall k :: 0 <= k < |keys| ==> |keys[k]| >= MID_LENGTH
  }

  // --- Grouping by table -------------------------------------------------------------------

  type Groups = map<string, seq<string>>

  function MidsIn(groups: Groups, table: string): seq<string> {
    if table in groups then groups[table] else []
  }

  // One more key in its table's list. Keys too short to split are never added.
  function AddKey(groups: Groups, key: string): Groups {
    if Split(key).None? then groups
    else
      var (mid, table) := Split(key).value;
      groups[table := MidsIn(groups, table) + [mid]]
  }

  function Group(keys: seq<string>): Groups {
    if |keys| == 0 then map[] else AddKey(Group(Front(keys)), Last(keys))
  }

  // The mid of a key of this table.
  function MidOf(key: string, table: string): seq<string> {
    if Split(key).None? || Split(key).value.1 != table then [] else [Split(key).value.0]
  }

  // The mids of the keys of one table, in order.
  function MidsOf(keys: seq<string>, table: string): seq<string> {
    if |keys| == 0 then [] else MidsOf(Front(keys), table) + MidOf(Last(keys), table)
  }

  lemma {:induction false} GroupKeepsOrder(keys: seq<string>, table: string)
    ensures MidsIn(Group(keys), table) == MidsOf(keys, table)
    ensures table in Group(keys) <==> MidsOf(keys, table) != []
  {
    if |keys| == 0 {
    } else {
      GroupKeepsOrder(Front(keys), table);
    }
  }

  lemma MidOfKey(key: string, table: string)
    ensures MidOf(key, table) == if |key| >= 16 && key[16..] == table then [key[..16]] else []
  {}

  /** They are the mids of exactly the keys that end with the table's name. */
  lemma {:induction false} MidsInOrder(keys: seq<string>, table: string) returns (picked: seq<string>, at: seq<nat>)
    ensures PicksAt(picked, keys, at)
    ensures forall k: nat :: k in at <==> k < |keys| && |keys[k]| >= 16 && keys[k][16..] == table
    ensures |MidsOf(keys, table)| == |picked|
    ensures forall j :: 0 <= j < |picked| ==> |picked[j]| >= 16 && MidsOf(keys, table)[j] == picked[j][..16]
  {
    hide MidOf, Increasing;
    if |keys| == 0 {
      picked, at := [], [];
      NoPicks(picked, keys, at);
    } else {
      hide PicksAt;
      picked, at := MidsInOrder(Front(keys), table);
      FrontLast(keys);
      MidOfKey(Last(keys), table);
      PicksNext(picked, Front(keys), at, Last(keys));
      if |Last(keys)| >= 16 && Last(keys)[16..] == table {
        picked, at := picked + [Last(keys)], at + [|keys| - 1];
      }
    }
  }

  lemma {:induction false} MidsCounted(keys: seq<string>, mid: string, table: string)
    requires |mid| == MID_LENGTH
    ensures multiset(MidsOf(keys, table))[mid] == multiset(keys)[mid + table]
  {
    if |keys| == 0 {
    } else {
      FrontLast(keys);
      MidsCounted(Front(keys), mid, table);
      SplitUndoesJoin(mid, table);
      JoinUndoesSplit(Last(keys));
    }
  }

  // --- Batches -----------------------------------------------------------------------------

  // An insert is made after every 10000 keys: where batch b starts, and how many full ones n keys make.
  function Start(b: nat): nat {
    10000 * b
  }

  function Full(n: nat): nat {
    n / 10000
  }

  // What one insert stores, and whether it is the topic's first (0) or a later one (1).
  datatype Batch = Batch(groups: Groups, flag: int)

  function Min(a: int, b: int): int {
    if a < b then a else b
  }

  // The keys of the first m batches.
  function Upto(keys: seq<string>, m: nat): seq<string> {
    keys[..Min(Start(m), |keys|)]
  }

  // The keys of batch b: at most 10000 of them.
  function Chunk(keys: seq<string>, b: nat): (chunk: seq<string>)
    requires Start(b) <= |keys|
    ensures |chunk| <= 10000
  {
    keys[Start(b)..Min(Start(b + 1), |keys|)]
  }

  function BatchOf(keys: seq<string>, b: nat): Batch
    requires Start(b) <= |keys|
  {
    Batch(Group(Chunk(keys, b)), if b == 0 then 0 else 1)
  }

  // The first m batches; the last batch of all may be empty.
  function Batches(keys: seq<string>, m: nat): (batches: seq<Batch>)
    requires Start(m) <= |keys| + 10000
    ensures |batches| == m
  {
    if m == 0 then [] else Batches(keys, m - 1) + [BatchOf(keys, m - 1)]
  }

  // How often the post with this mid in this table is inserted.
  function TimesInserted(batches: seq<Batch>, mid: string, table: string): nat {
    if |batches| == 0 then 0
    else TimesInserted(Front(batches), mid, table) + multiset(MidsIn(Last(batches).groups, table))[mid]
  }

  lemma UptoNext(keys: seq<string>, b: nat, key: string)
    requires Start(b) <= |keys|
    ensures multiset(Upto(keys, b + 1))[key] == multiset(Upto(keys, b))[key] + multiset(Chunk(keys, b))[key]
  {
    assert Upto(keys, b + 1) == Upto(keys, b) + Chunk(keys, b);
  }

  lemma BatchCounted(keys: seq<string>, b: nat, mid: string, table: string)
    requires Start(b) <= |keys| && |mid| == MID_LENGTH
    ensures multiset(MidsIn(BatchOf(keys, b).groups, table))[mid] == multiset(Chunk(keys, b))[mid + table]
  {
    GroupKeepsOrder(Chunk(keys, b), table);
    MidsCounted(Chunk(keys, b), mid, table);
  }

  lemma {:induction false} TimesInsertedNext(batches: seq<Batch>, batch: Batch, mid: string, table: string)
    ensures TimesInserted(batches + [batch], mid, table) ==
      TimesInserted(batches, mid, table) + multiset(MidsIn(batch.groups, table))[mid]
  {
    assert Front(batches + [batch]) == batches;
  }

  lemma {:induction false} BatchesCounted(keys: seq<string>, m: nat, mid: string, table: string)
    requires Start(m) <= |keys| + 10000 && |mid| == MID_LENGTH
    ensures TimesInserted(Batches(keys, m), mid, table) == multiset(Upto(keys, m))[mid + table]
  {
    if m == 0 {
    } else {
      BatchesCounted(keys, m - 1, mid, table);
      BatchCounted(keys, m - 1, mid, table);
      UptoNext(keys, m - 1, mid + table);
      TimesInsertedNext(Batches(keys, m - 1), BatchOf(keys, m - 1), mid, table);
    }
  }

  /** The batches of a whole topic together hold exactly its keys, each as often as it is listed. */
  lemma BatchesConserve(keys: seq<string>, mid: string, table: string)
    requires |mid| == MID_LENGTH
    ensures TimesInserted(Batches(keys, Full(|keys|) + 1), mid, table) == multiset(keys)[mid + table]
  {
    BatchesCounted(keys, Full(|keys|) + 1, mid, table);
    assert Upto(keys, Full(|keys|) + 1) == keys;
  }

  lemma ChunkIs(keys: seq<string>, b: nat)
    requires 10000 * b <= |keys|
    ensures Chunk(keys, b) == keys[10000 * b..if 10000 * (b + 1) < |keys| then 10000 * (b + 1) else |keys|]
  {}

  /** Batch b holds, in order and table by table, the 10000 keys from number 10000 * b on, or those
      that are left; only the first has flag 0. */
  lemma {:induction false} BatchAt(keys: seq<string>, m: nat, b: nat, table: string)
    requires 10000 * m <= |keys| + 10000 && b < m
    ensures Batches(keys, m)[b].flag == (if b == 0 then 0 else 1)
    ensures var end := if 10000 * (b + 1) < |keys| then 10000 * (b + 1) else |keys|;
      10000 * b <= end && MidsIn(Batches(keys, m)[b].groups, table) == MidsOf(keys[10000 * b..end], table)
  {
    hide Chunk, Group, MidsOf, MidsIn;
    if b < m - 1 {
      BatchAt(keys, m - 1, b, table);
    } else {
      GroupKeepsOrder(Chunk(keys, b), table);
      ChunkIs(keys, b);
    }
  }

  // --- The run over a topic ----------------------------------------------------------------

  // How a run over a topic ends: too few posts, judged trash, a key too short to split, or stored.
  datatype Outcome = Skipped | Trash | OutOfRange | Stored

  // The number of keys before the first that is too short.
  function Splittable(keys: seq<string>): (n: nat)
    ensures n <= |keys|
  {
    if |keys| == 0 then 0
    else
      var n := Splittable(Front(keys));
      if n == |keys| - 1 && Split(Last(keys)).Some? then |keys| else n
  }

  lemma {:induction false} SplittableIs(keys: seq<string>, k: nat)
    requires k < |keys|
    ensures k < Splittable(keys) ==> Split(keys[k]).Some?
    ensures k == Splittable(keys) ==> Split(keys[k]).None?
  {
    if k == |keys| - 1 {
    } else {
      SplittableIs(Front(keys), k);
    }
  }

  lemma {:induction false} AllSplittable(keys: seq<string>)
    requires WellFormed(keys)
    ensures Splittable(keys) == |keys|
  {
    if |keys| == 0 {
    } else {
      AllSplittable(Front(keys));
    }
  }

  // The count at which the topic is judged, if it is reached.
  function JudgedAt(n: nat, messageNum: int, viewNum: int): (r: Option<nat>)
    ensures r.Some? ==> 1 <= r.value <= n
  {
    if 1 <= viewNum <= n && 1 <= messageNum <= n then Some(Min(viewNum, messageNum))
    else if 1 <= viewNum <= n then Some(viewNum)
    else if 1 <= messageNum <= n then Some(messageNum)
    else None
  }

  // How the run ends and how many batches it has inserted by then.
  function Run(keys: seq<string>, messageNum: int, minimum: int, viewNum: int, isTrash: bool): (r: (Outcome, nat))
    ensures Start(r.1) <= |keys| + 10000
  {
    var good := Splittable(keys);
    var judged := JudgedAt(|keys|, messageNum, viewNum);
    if messageNum <= minimum then (Skipped, 0)
    else if isTrash && judged.Some? && judged.value <= good then (Trash, Full(judged.value - 1))
    else if good < |keys| then (OutOfRange, Full(good))
    else (Stored, Full(|keys|) + 1)
  }

  function RunInserts(keys: seq<string>, messageNum: int, minimum: int, viewNum: int, isTrash: bool): seq<Batch> {
    Batches(keys, Run(keys, messageNum, minimum, viewNum, isTrash).1)
  }

  // A topic is due to be judged at this count of keys.
  predicate Due(count: nat, messageNum: int, viewNum: int) {
    count == viewNum || count == messageNum
  }

  // The first such count.
  ghost predicate FirstDue(n: nat, messageNum: int, viewNum: int, c: nat) {
    1 <= c <= n && Due(c, messageNum, viewNum) && forall d :: 1 <= d < c ==> !Due(d, messageNum, viewNum)
  }

  lemma {:induction false} SplittableUpTo(keys: seq<string>, good: nat)
    requires good <= |keys| && forall k :: 0 <= k < good ==> |keys[k]| >= 16
    requires good < |keys| ==> |keys[good]| < 16
    ensures Splittable(keys) == good
  {
    if |keys| == 0 {
    } else if good < |keys| {
      SplittableIs(keys, good);
      var n := Splittable(keys);
      if n < good {
        SplittableIs(keys, n);
      }
    } else {
      AllSplittable(keys);
    }
  }

  /** How a run ends and how many inserts it makes by then, for any keys of which the first `good` can
      be split: nothing is done for too few posts; a topic judged trash ends when it is judged, unless
      a short key comes first; a short key ends it there; otherwise every key is stored. */
  lemma RunIs(keys: seq<string>, messageNum: int, minimum: int, viewNum: int, isTrash: bool, good: nat)
    requires good <= |keys| && forall k :: 0 <= k < good ==> |keys[k]| >= 16
    requires good < |keys| ==> |keys[good]| < 16
    ensures var run := Run(keys, messageNum, minimum, viewNum, isTrash);
      && (messageNum <= minimum ==> run == (Skipped, 0))
      && (messageNum > minimum ==>
           && (forall c: nat :: isTrash && FirstDue(|keys|, messageNum, viewNum, c) && c <= good ==>
                run == (Trash, (c - 1) / 10000))
           && (!isTrash || (forall c :: 1 <= c <= good ==> !Due(c, messageNum, viewNum)) ==>
                run == if good < |keys| then (OutOfRange, good / 10000) else (Stored, |keys| / 10000 + 1)))
  {
    SplittableUpTo(keys, good);
    var judged := JudgedAt(|keys|, messageNum, viewNum);
    assert judged.Some? ==> Due(judged.value, messageNum, viewNum);
    assert 1 <= viewNum ==> Due(viewNum, messageNum, viewNum);
    assert 1 <= messageNum ==> Due(messageNum, messageNum, viewNum);
  }

  /** A topic that is kept and has well-formed keys ends as trash when it is judged so, and is
      stored completely otherwise; without posts it is never judged. */
  lemma RunEnds(keys: seq<string>, minimum: int, viewNum: int, isTrash: bool)
    requires WellFormed(keys) && |keys| > minimum
    ensures var (outcome, m) := Run(keys, |keys|, minimum, viewNum, isTrash);
      && (outcome == Trash <==> isTrash && |keys| > 0)
      && (outcome == Stored <==> !isTrash || |keys| == 0)
      && (outcome == Stored ==> m == Full(|keys|) + 1)
  {
    AllSplittable(keys);
  }

  /** From the index to the database: of a topic that is kept and stored, every post that belongs to
      it is inserted exactly once, and no other. */
  lemma RelevantPostsStored(topic: IndexedTopic, posts: seq<Post>, throd: nat, minimum: int,
          mid: string, table: string)
    requires Listed(topic, posts, throd, minimum) && topic.topicMessageNum > minimum && |mid| == MID_LENGTH
    ensures var keys := Ids(topic.weiboIdList);
      && |keys| == topic.topicMessageNum
      && TimesInserted(Batches(keys, Full(|keys|) + 1), mid, table) ==
           if mid + table in Relevant(posts, topic.words, throd) then 1 else 0
  {
    var keys := Ids(topic.weiboIdList);
    ListingSize(topic.weiboIdList, posts, topic.words, throd);
    ListingIds(topic.weiboIdList, posts, topic.words, throd, mid + table);
    BatchesConserve(keys, mid, table);
    CountOfDistinct(keys, mid + table);
  }

  /** A trash topic leaves nothing behind exactly when it is judged within the first batch. */
  lemma TrashInsertsNothing(keys: seq<string>, minimum: int, viewNum: int)
    requires WellFormed(keys) && |keys| > minimum && |keys| > 0
    ensures Run(keys, |keys|, minimum, viewNum, true).1 == 0 <==> 1 <= viewNum <= 10000 || |keys| <= 10000
  {
    AllSplittable(keys);
  }

  // What both programs set.
  const TOPICVIEW_WEIBO_NUM := 50

  /** With it no trash topic leaves anything behind. */
  lemma SetNumberLeavesNoTrash(keys: seq<string>, minimum: int)
    requires WellFormed(keys) && |keys| > minimum && |keys| > 0
    ensures Run(keys, |keys|, minimum, TOPICVIEW_WEIBO_NUM, true).1 == 0
  {
    TrashInsertsNothing(keys, minimum, TOPICVIEW_WEIBO_NUM);
  }

  /** Otherwise it does: any 10001 posts, judged at the last one, of which the first 10000 are in the
      database by then. */
  lemma TrashInserted(keys: seq<string>, minimum: int)
    requires NoDuplicates(keys) && WellFormed(keys) && |keys| == 10001 && minimum <= 10000
    ensures Run(keys, |keys|, minimum, 10001, true) == (Trash, 1)
    ensures RunInserts(keys, |keys|, minimum, 10001, true) == [BatchOf(keys, 0)]
  {
    AllSplittable(keys);
    assert Batches(keys, 0) == [];
  }

  // The digits of a number, filled up with zeros.
  function Decimal(n: nat, length: nat): string {
    if length == 0 then "" else Decimal(n / 10, length - 1) + [Digit(n % 10)]
  }

  function Digit(d: nat): char
    requires d < 10
  {
    '0' + d as char
  }

  lemma DigitDetermines(a: nat, b: nat)
    requires a < 10 && b < 10 && Digit(a) == Digit(b)
    ensures a == b
  {}

  function Pow10(length: nat): nat {
    if length == 0 then 1 else 10 * Pow10(length - 1)
  }

  lemma {:induction false} Pow10Grows(m: nat, n: nat)
    requires m <= n
    ensures Pow10(m) <= Pow10(n)
  {
    if m == n {
    } else {
      Pow10Grows(m, n - 1);
    }
  }

  lemma {:induction false} DecimalDetermines(a: nat, b: nat, length: nat)
    requires a < Pow10(length) && b < Pow10(length)
    ensures |Decimal(a, length)| == |Decimal(b, length)| == length
    ensures Decimal(a, length) == Decimal(b, length) ==> a == b
  {
    if length == 0 {
    } else {
      DecimalDetermines(a / 10, b / 10, length - 1);
      hide Digit;
      if Decimal(a, length) == Decimal(b, length) {
        assert Front(Decimal(a, length)) == Decimal(a / 10, length - 1);
        assert Front(Decimal(b, length)) == Decimal(b / 10, length - 1);
        assert Last(Decimal(a, length)) == Digit(a % 10) && Last(Decimal(b, length)) == Digit(b % 10);
        DigitDetermines(a % 10, b % 10);
      }
    }
  }

  // n keys whose mids are the first n numbers.
  function Numbered(n: nat, table: string): (keys: seq<string>)
    ensures |keys| == n
  {
    seq(n, i requires 0 <= i < n => Decimal(i, MID_LENGTH) + table)
  }

  lemma NumberedDistinct(n: nat, table: string)
    requires n <= Pow10(MID_LENGTH)
    ensures NoDuplicates(Numbered(n, table)) && WellFormed(Numbered(n, table))
  {
    var keys := Numbered(n, table);
    forall i | 0 <= i < n ensures |keys[i]| >= MID_LENGTH {
      DecimalDetermines(i, i, MID_LENGTH);
    }
    forall i, j | 0 <= i < j < n ensures keys[i] != keys[j] {
      DecimalDetermines(i, j, MID_LENGTH);
      assert keys[i][..MID_LENGTH] == Decimal(i, MID_LENGTH) && keys[j][..MID_LENGTH] == Decimal(j, MID_LENGTH);
    }
  }

  // A post under each key with the one word, and the topic of that word that lists them all.
  function PostsOf(keys: seq<string>, word: string): (posts: seq<Post>)
    ensures |posts| == |keys|
  {
    seq(|keys|, i requires 0 <= i < |keys| => Post(keys[i], [word]))
  }

  function TopicOf(keys: seq<string>, word: string): IndexedTopic {
    IndexedTopic([word], map[], seq(|keys|, i requires 0 <= i < |keys| => Entry(keys[i], 1)), |keys|)
  }

  lemma HitsInPosts(keys: seq<string>, word: string, key: string)
    ensures Hits(PostsOf(keys, word), [word], key) == if key in keys then 1 else 0
  {
    var posts := PostsOf(keys, word);
    if key in keys {
      var i :| 0 <= i < |keys| && keys[i] == key;
      assert posts[i] in posts && word in posts[i].words;
      assert HitWords(posts, [word], key) == {word};
    } else {
      assert HitWords(posts, [word], key) == {};
    }
  }

  /** So every list of distinct keys is that of some recorded topic. */
  lemma AnyKeysListed(keys: seq<string>, word: string, minimum: int)
    requires NoDuplicates(keys) && |keys| > minimum
    ensures Listed(TopicOf(keys, word), PostsOf(keys, word), 1, minimum)
    ensures Ids(TopicOf(keys, word).weiboIdList) == keys
  {
    var list, posts := TopicOf(keys, word).weiboIdList, PostsOf(keys, word);
    forall key ensures (exists e :: e in list && e.id == key) <==> Hits(posts, [word], key) >= 1 {
      HitsInPosts(keys, word, key);
      if key in keys {
        var i :| 0 <= i < |keys| && keys[i] == key;
        assert list[i] in list && list[i].id == key;
      }
    }
    forall e | e in list ensures e.fre == Hits(posts, [word], e.id) {
      HitsInPosts(keys, word, e.id);
    }
    ListingSize(list, posts, [word], 1);
  }

  /** A recorded topic of distinct posts whose trash verdict comes too late. */
  lemma TrashTopicInserted(minimum: int) returns (topic: IndexedTopic, posts: seq<Post>)
    requires minimum <= 10000
    ensures Listed(topic, posts, 1, minimum) && topic.topicMessageNum == 10001
    ensures var keys := Ids(topic.weiboIdList);
      && NoDuplicates(keys) && WellFormed(keys)
      && Run(keys, topic.topicMessageNum, minimum, 10001, true) == (Trash, 1)
      && RunInserts(keys, topic.topicMessageNum, minimum, 10001, true) == [BatchOf(keys, 0)]
  {
    var keys := Numbered(10001, "Table");
    assert Pow10(5) == 100000;
    Pow10Grows(5, MID_LENGTH);
    NumberedDistinct(10001, "Table");
    AnyKeysListed(keys, "word", minimum);
    TrashInserted(keys, minimum);
    topic, posts := TopicOf(keys, "word"), PostsOf(keys, "word");
  }

  // The next full or last batch.
  lemma NextBatch(keys: seq<string>, b: nat, pending: seq<string>)
    requires Start(b) <= |keys| && pending == Chunk(keys, b)
    ensures Batches(keys, b + 1) == Batches(keys, b) + [Batch(Group(pending), if b == 0 then 0 else 1)]
  {
    assert BatchOf(keys, b) == Batch(Group(pending), if b == 0 then 0 else 1);
    var m: nat := b + 1;
    assert Batches(keys, m) == Batches(keys, m - 1) + [BatchOf(keys, m - 1)];
  }

  // The topic has been judged by the time k keys are filed.
  predicate Judged(n: nat, messageNum: int, viewNum: int, k: nat) {
    JudgedAt(n, messageNum, viewNum).Some? && JudgedAt(n, messageNum, viewNum).value <= k
  }

  lemma JudgedNext(n: nat, messageNum: int, viewNum: int, k: nat)
    requires k < n
    ensures Judged(n, messageNum, viewNum, k + 1) <==>
      Judged(n, messageNum, viewNum, k) || k + 1 == viewNum || k + 1 == messageNum
  {}

  // What the run holds after k keys: the keys and groups not inserted yet, the flag of the next
  // insert, and what was inserted.
  datatype Progress = Progress(totalNum: int, tableToWeibo: Groups, flag: int, stored: seq<Batch>)

  function After(keys: seq<string>, k: nat): Progress
    requires k <= |keys|
  {
    var b := Full(k);
    Progress(k - Start(b), Group(keys[Start(b)..k]), if b == 0 then 0 else 1, Batches(keys, b))
  }

  // A key more in the groups is counted, and the batch inserted when it is full.
  function Filed(p: Progress): Progress {
    if p.totalNum + 1 < 10000 then p.(totalNum := p.totalNum + 1)
    else Progress(0, map[], 1, p.stored + [Batch(p.tableToWeibo, p.flag)])
  }

  lemma AfterNext(keys: seq<string>, k: nat)
    requires k < |keys|
    ensures var p := After(keys, k); After(keys, k + 1) == Filed(p.(tableToWeibo := AddKey(p.tableToWeibo, keys[k])))
  {
    var b := Full(k);
    assert Front(keys[Start(b)..k + 1]) == keys[Start(b)..k];
    if Full(k + 1) > b {
      NextBatch(keys, b, keys[Start(b)..k + 1]);
      assert keys[k + 1..k + 1] == [];
    } else {
      assert Full(k + 1) == b;
    }
  }

  lemma AfterAll(keys: seq<string>)
    ensures var p := After(keys, |keys|);
      p.stored + [Batch(p.tableToWeibo, p.flag)] == Batches(keys, Full(|keys|) + 1)
  {
    NextBatch(keys, Full(|keys|), keys[Start(Full(|keys|))..|keys|]);
  }

  lemma RunStarts(keys: seq<string>, messageNum: int, minimum: int, viewNum: int, isTrash: bool)
    ensures After(keys, 0) == Progress(0, map[], 0, [])
    ensures !Judged(|keys|, messageNum, viewNum, 0)
    ensures messageNum <= minimum ==>
      && Run(keys, messageNum, minimum, viewNum, isTrash).0 == Skipped
      && RunInserts(keys, messageNum, minimum, viewNum, isTrash) == []
  {}

  lemma EndsAsTrash(keys: seq<string>, messageNum: int, minimum: int, viewNum: int, k: nat)
    requires k < Splittable(keys) && messageNum > minimum
    requires !Judged(|keys|, messageNum, viewNum, k) && Judged(|keys|, messageNum, viewNum, k + 1)
    ensures Run(keys, messageNum, minimum, viewNum, true).0 == Trash
    ensures RunInserts(keys, messageNum, minimum, viewNum, true) == After(keys, k).stored
  {}

  lemma EndsOutOfRange(keys: seq<string>, messageNum: int, minimum: int, viewNum: int,
          isTrash: bool, k: nat)
    requires k <= Splittable(keys) && k < |keys| && messageNum > minimum
    requires Judged(|keys|, messageNum, viewNum, k) ==> !isTrash
    ensures Split(keys[k]).None? ==>
      && Run(keys, messageNum, minimum, viewNum, isTrash).0 == OutOfRange
      && RunInserts(keys, messageNum, minimum, viewNum, isTrash) == After(keys, k).stored
    ensures Split(keys[k]).Some? ==> k < Splittable(keys)
  {
    SplittableIs(keys, k);
  }

  lemma EndsStored(keys: seq<string>, messageNum: int, minimum: int, viewNum: int, isTrash: bool)
    requires Splittable(keys) == |keys| && messageNum > minimum
    requires Judged(|keys|, messageNum, viewNum, |keys|) ==> !isTrash
    ensures Run(keys, messageNum, minimum, viewNum, isTrash).0 == Stored
    ensures var p := After(keys, |keys|);
      RunInserts(keys, messageNum, minimum, viewNum, isTrash) == p.stored + [Batch(p.tableToWeibo, p.flag)]
  {
    AfterAll(keys);
  }

  method PushMid(tableToWeibo: Groups, key: string) returns (r: Option<Groups>)
    ensures Split(key).None? ==> r == None
    ensures Split(key).Some? ==> r == Some(AddKey(tableToWeibo, key))
  {
    var result := Split(key);
    if result.None? {
      return None;
    }
    var mid, table := result.value.0, result.value.1;
    var groups := tableToWeibo;
    if table in tableToWeibo {
      groups := groups[table := tableToWeibo[table] + [mid]];
    } else {
      groups := groups[table := [mid]];
    }
    assert [] + [mid] == [mid];
    assert groups == AddKey(tableToWeibo, key);
    r := Some(groups);
  }

  // The topic is judged once, when either number is reached.
  method NowJudged(politicCounter: nat, messageNum: int, viewNum: int, processed: bool,
          ghost n: nat) returns (judge: bool)
    requires 1 <= politicCounter <= n && processed == Judged(n, messageNum, viewNum, politicCounter - 1)
    ensures judge == (!processed && Judged(n, messageNum, viewNum, politicCounter))
    ensures (processed || judge) == Judged(n, messageNum, viewNum, politicCounter)
  {
    JudgedNext(n, messageNum, viewNum, politicCounter - 1);
    judge := false;
    if politicCounter == viewNum || politicCounter == messageNum {
      if !processed {
        judge := true;
      }
    }
  }

  // --- All topics --------------------------------------------------------------------------

  // What a run over one topic inserts, and how it ends.
  function Inserts(topic: IndexedTopic, isTrash: bool, minimum: int, viewNum: int): seq<Batch> {
    RunInserts(Ids(topic.weiboIdList), topic.topicMessageNum, minimum, viewNum, isTrash)
  }

  function Ends(topic: IndexedTopic, isTrash: bool, minimum: int, viewNum: int): Outcome {
    Run(Ids(topic.weiboIdList), topic.topicMessageNum, minimum, viewNum, isTrash).0
  }

  // What runs over the topics from k on insert, one after the other; a key that cannot be split
  // ends them.
  function InsertsFrom(topics: seq<IndexedTopic>, verdicts: seq<bool>, minimum: int, viewNum: int, k: nat): seq<Batch>
    requires |topics| == |verdicts| && k <= |topics|
    decreases |topics| - k
  {
    if k == |topics| then []
    else if Ends(topics[k], verdicts[k], minimum, viewNum) == OutOfRange then
      Inserts(topics[k], verdicts[k], minimum, viewNum)
    else Inserts(topics[k], verdicts[k], minimum, viewNum) + InsertsFrom(topics, verdicts, minimum, viewNum, k + 1)
  }

  lemma NextInserts(topics: seq<IndexedTopic>, verdicts: seq<bool>, minimum: int, viewNum: int,
                                       k: nat, done: seq<Batch>)
    requires |topics| == |verdicts| && k < |topics|
    ensures done + InsertsFrom(topics, verdicts, minimum, viewNum, k) ==
      done + Inserts(topics[k], verdicts[k], minimum, viewNum) +
      if Ends(topics[k], verdicts[k], minimum, viewNum) == OutOfRange then []
      else InsertsFrom(topics, verdicts, minimum, viewNum, k + 1)
  {
    hide Inserts, Ends;
    Regroup(done, Inserts(topics[k], verdicts[k], minimum, viewNum),
            InsertsFrom(topics, verdicts, minimum, viewNum, k + 1));
  }

  lemma Regroup<T>(a: seq<T>, b: seq<T>, c: seq<T>)
    ensures (a + b) + c == a + (b + c)
  {}

  lemma {:induction false} TimesInsertedConcat(s: seq<Batch>, t: seq<Batch>, mid: string, table: string)
    ensures TimesInserted(s + t, mid, table) == TimesInserted(s, mid, table) + TimesInserted(t, mid, table)
  {
    if |t| == 0 {
      assert s + t == s;
    } else {
      assert Front(s + t) == s + Front(t);
      TimesInsertedConcat(s, Front(t), mid, table);
    }
  }

  // What the topics from k on insert, in turn.
  function InsertsOf(topics: seq<IndexedTopic>, verdicts: seq<bool>, minimum: int, viewNum: int,
                     k: nat, m: nat): (inserts: seq<seq<Batch>>)
    requires |topics| == |verdicts| && k <= m <= |topics|
  {
    seq(m - k, i requires 0 <= i < m - k => Inserts(topics[k + i], verdicts[k + i], minimum, viewNum))
  }

  /** Up to the first topic with a key that cannot be split, every topic makes its inserts, in turn;
      that one makes the last. */
  lemma {:induction false} InsertsUpTo(topics: seq<IndexedTopic>, verdicts: seq<bool>, minimum: int, viewNum: int,
          k: nat, m: nat)
    requires |topics| == |verdicts| && k <= m <= |topics|
    requires forall i :: k <= i < m ==> Ends(topics[i], verdicts[i], minimum, viewNum) != OutOfRange
    ensures var inserts := Flat(InsertsOf(topics, verdicts, minimum, viewNum, k, m));
      InsertsFrom(topics, verdicts, minimum, viewNum, k)
        == inserts + InsertsFrom(topics, verdicts, minimum, viewNum, m)
    ensures m == |topics| ==> InsertsFrom(topics, verdicts, minimum, viewNum, m) == []
    ensures m < |topics| && Ends(topics[m], verdicts[m], minimum, viewNum) == OutOfRange ==>
      InsertsFrom(topics, verdicts, minimum, viewNum, m) == Inserts(topics[m], verdicts[m], minimum, viewNum)
  {
    hide Inserts, Ends, InsertsOf;
    if k == m {
      InsertsOfNext(topics, verdicts, minimum, viewNum, k, m);
    } else {
      InsertsUpTo(topics, verdicts, minimum, viewNum, k, m - 1);
      InsertsOfNext(topics, verdicts, minimum, viewNum, k, m - 1);
      Regroup(Flat(InsertsOf(topics, verdicts, minimum, viewNum, k, m - 1)),
              Inserts(topics[m - 1], verdicts[m - 1], minimum, viewNum),
              InsertsFrom(topics, verdicts, minimum, viewNum, m));
    }
  }

  lemma InsertsOfNext(topics: seq<IndexedTopic>, verdicts: seq<bool>, minimum: int, viewNum: int, k: nat, m: nat)
    requires |topics| == |verdicts| && k <= m <= |topics|
    ensures Flat(InsertsOf(topics, verdicts, minimum, viewNum, k, k)) == []
    ensures m < |topics| ==>
      Flat(InsertsOf(topics, verdicts, minimum, viewNum, k, m + 1))
        == Flat(InsertsOf(topics, verdicts, minimum, viewNum, k, m)) + Inserts(topics[m], verdicts[m], minimum, viewNum)
  {
    hide Inserts;
    if m < |topics| {
      var all := InsertsOf(topics, verdicts, minimum, viewNum, k, m + 1);
      assert Front(all) == InsertsOf(topics, verdicts, minimum, viewNum, k, m);
      assert Last(all) == Inserts(topics[m], verdicts[m], minimum, viewNum);
    }
  }

  // One recorded topic: its posts once if it is kept and not judged trash, and nothing otherwise.
  lemma TopicStored(topic: IndexedTopic, isTrash: bool, posts: seq<Post>, throd: nat, minimum: int, viewNum: int,
          mid: string, table: string)
    requires Listed(topic, posts, throd, minimum) && |mid| == MID_LENGTH && 1 <= viewNum <= 10000
    requires forall p :: p in posts ==> |p.key| >= MID_LENGTH
    ensures Ends(topic, isTrash, minimum, viewNum) != OutOfRange
    ensures TimesInserted(Inserts(topic, isTrash, minimum, viewNum), mid, table) ==
      if topic.topicMessageNum > minimum && !isTrash && mid + table in Relevant(posts, topic.words, throd) then 1 else 0
  {
    var keys, n := Ids(topic.weiboIdList), topic.topicMessageNum;
    if n > minimum {
      RelevantPostsStored(topic, posts, throd, minimum, mid, table);
      ListedKeysLong(topic, posts, throd, minimum);
      RunEnds(keys, minimum, viewNum, isTrash);
      if isTrash && |keys| > 0 {
        TrashInsertsNothing(keys, minimum, viewNum);
        assert Batches(keys, 0) == [];
      } else if |keys| == 0 {
        BatchesConserve(keys, mid, table);
      }
    }
  }

  lemma ListedKeysLong(topic: IndexedTopic, posts: seq<Post>, throd: nat, minimum: int)
    requires Listed(topic, posts, throd, minimum) && topic.topicMessageNum > minimum
    requires forall p :: p in posts ==> |p.key| >= MID_LENGTH
    ensures WellFormed(Ids(topic.weiboIdList))
  {
    var keys := Ids(topic.weiboIdList);
    forall k | 0 <= k < |keys| ensures |keys[k]| >= MID_LENGTH {
      ListingIds(topic.weiboIdList, posts, topic.words, throd, keys[k]);
      assert keys[k] in Relevant(posts, topic.words, throd);
    }
  }

  // The topics from k on that store the post.
  function StoredIn(topics: seq<IndexedTopic>, verdicts: seq<bool>, posts: seq<Post>, throd: nat, minimum: int,
                    key: string, k: nat): set<nat>
    requires |topics| == |verdicts|
  {
    set t: nat | k <= t < |topics| && topics[t].topicMessageNum > minimum && !verdicts[t]
               && key in Relevant(posts, topics[t].words, throd)
  }

  /** From the index to the database, over all topics: a post is inserted once for every topic that is
      kept, is not judged trash, and that it belongs to. */
  lemma {:induction false} AllTopicsStored(topics: seq<IndexedTopic>, verdicts: seq<bool>, posts: seq<Post>,
          throd: nat, minimum: int, viewNum: int, mid: string, table: string, k: nat)
    requires |topics| == |verdicts| && k <= |topics| && |mid| == MID_LENGTH && 1 <= viewNum <= 10000
    requires forall t :: 0 <= t < |topics| ==> Listed(topics[t], posts, throd, minimum)
    requires forall p :: p in posts ==> |p.key| >= MID_LENGTH
    ensures TimesInserted(InsertsFrom(topics, verdicts, minimum, viewNum, k), mid, table)
         == |StoredIn(topics, verdicts, posts, throd, minimum, mid + table, k)|
    decreases |topics| - k
  {
    StoredNext(topics, verdicts, posts, throd, minimum, mid + table, k);
    hide Listed, Relevant, Inserts, Ends, StoredIn;
    if k < |topics| {
      TopicStored(topics[k], verdicts[k], posts, throd, minimum, viewNum, mid, table);
      AllTopicsStored(topics, verdicts, posts, throd, minimum, viewNum, mid, table, k + 1);
      TimesInsertedConcat(Inserts(topics[k], verdicts[k], minimum, viewNum),
                          InsertsFrom(topics, verdicts, minimum, viewNum, k + 1), mid, table);
    }
  }

  lemma StoredNext(topics: seq<IndexedTopic>, verdicts: seq<bool>, posts: seq<Post>, throd: nat, minimum: int,
          key: string, k: nat)
    requires |topics| == |verdicts| && k <= |topics|
    ensures k == |topics| ==> StoredIn(topics, verdicts, posts, throd, minimum, key, k) == {}
    ensures k < |topics| ==>
      |StoredIn(topics, verdicts, posts, throd, minimum, key, k)|
        == |StoredIn(topics, verdicts, posts, throd, minimum, key, k + 1)|
           + if topics[k].topicMessageNum > minimum && !verdicts[k] && key in Relevant(posts, topics[k].words, throd)
             then 1 else 0
  {
    hide Relevant;
    var stored, rest := StoredIn(topics, verdicts, posts, throd, minimum, key, k),
      StoredIn(topics, verdicts, posts, throd, minimum, key, k + 1);
    assert k < |topics| ==> stored == rest + if k in stored then {k} else {};
  }

  // When topic k has too few posts, no topic from k on, in descending order, inserts any.
  lemma {:induction false} NothingBelow(topics: seq<IndexedTopic>, verdicts: seq<bool>, minimum: int, viewNum: int,
          k: nat)
    requires |topics| == |verdicts| && k <= |topics| && MostMessagesFirst(topics)
    requires k < |topics| ==> topics[k].topicMessageNum < minimum
    ensures InsertsFrom(topics, verdicts, minimum, viewNum, k) == []
    decreases |topics| - k
  {
    if k + 1 < |topics| {
      assert topics[k].topicMessageNum >= topics[k + 1].topicMessageNum;
    }
    if k < |topics| {
      NothingBelow(topics, verdicts, minimum, viewNum, k + 1);
    }
  }

  class TopicViewAndPolitics {
    const minTopicMessageNum: int
    const topicViewWeiboNum: int

    // What was inserted into the database so far.
    var inserted: seq<Batch>

    constructor (minTopicMessageNum: int, topicViewWeiboNum: int)
      ensures this.minTopicMessageNum == minTopicMessageNum && this.topicViewWeiboNum == topicViewWeiboNum
      ensures inserted == []
    {
      this.minTopicMessageNum := minTopicMessageNum;
      this.topicViewWeiboNum := topicViewWeiboNum;
      inserted := [];
    }

    method GetOneTopicWeiboByBatch(keys: seq<string>, messageNum: int, isTrash: bool) returns (outcome: Outcome)
      modifies `inserted
      ensures outcome == Run(keys, messageNum, minTopicMessageNum, topicViewWeiboNum, isTrash).0
      ensures inserted == old(inserted) + RunInserts(keys, messageNum, minTopicMessageNum, topicViewWeiboNum, isTrash)
    {
      RunStarts(keys, messageNum, minTopicMessageNum, topicViewWeiboNum, isTrash);
      hide After, Judged, Run, RunInserts, Splittable;
      if messageNum <= minTopicMessageNum {
        return Skipped;
      }
      var tableToWeibo: Groups := map[];
      var politicCounter, totalNum, flag := 0, 0, 0;
      var processedPolitic := false;
      ghost var stored: seq<Batch> := [];
      for k := 0 to |keys|
        invariant politicCounter == k <= Splittable(keys)
        invariant processedPolitic == Judged(|keys|, messageNum, topicViewWeiboNum, k)
        invariant processedPolitic ==> !isTrash
        invariant Progress(totalNum, tableToWeibo, flag, stored) == After(keys, k)
        invariant inserted == old(inserted) + stored
      {
        EndsOutOfRange(keys, messageNum, minTopicMessageNum, topicViewWeiboNum, isTrash, k);
        AfterNext(keys, k);
        var pushed := PushMid(tableToWeibo, keys[k]);
        if pushed.None? {
          return OutOfRange;
        }
        tableToWeibo := pushed.value;
        politicCounter := politicCounter + 1;
        var judge := NowJudged(politicCounter, messageNum, topicViewWeiboNum, processedPolitic, |keys|);
        if judge {
          processedPolitic := true;
          if isTrash {
            EndsAsTrash(keys, messageNum, minTopicMessageNum, topicViewWeiboNum, k);
            return Trash;
          }
        }
        totalNum, tableToWeibo, flag, stored := InsertWhenFull(totalNum, tableToWeibo, flag, stored, old(inserted));
      }
      EndsStored(keys, messageNum, minTopicMessageNum, topicViewWeiboNum, isTrash);
      InsertData(tableToWeibo, flag, stored, old(inserted));
      outcome := Stored;
    }

    /** Stopping at the first topic with too few posts leaves nothing out, because the topics come
        in descending order of their message numbers. */
    method InsterAllTopicToDatabase(topics: seq<IndexedTopic>, verdicts: seq<bool>)
      requires |topics| == |verdicts| && MostMessagesFirst(topics)
      modifies `inserted
      ensures inserted == old(inserted) + InsertsFrom(topics, verdicts, minTopicMessageNum, topicViewWeiboNum, 0)
    {
      var k := 0;
      ghost var all := InsertsFrom(topics, verdicts, minTopicMessageNum, topicViewWeiboNum, 0);
      ghost var done: seq<Batch> := [];
      while k < |topics|
        invariant k <= |topics| && inserted == old(inserted) + done
        invariant all == done + InsertsFrom(topics, verdicts, minTopicMessageNum, topicViewWeiboNum, k)
      {
        if topics[k].topicMessageNum < minTopicMessageNum {
          NothingBelow(topics, verdicts, minTopicMessageNum, topicViewWeiboNum, k);
          return;
        }
        NextInserts(topics, verdicts, minTopicMessageNum, topicViewWeiboNum, k, done);
        var outcome := GetOneTopicWeiboByBatch(Ids(topics[k].weiboIdList), topics[k].topicMessageNum, verdicts[k]);
        Regroup(old(inserted), done, Inserts(topics[k], verdicts[k], minTopicMessageNum, topicViewWeiboNum));
        done := done + Inserts(topics[k], verdicts[k], minTopicMessageNum, topicViewWeiboNum);
        if outcome == OutOfRange {
          return;
        }
        k := k + 1;
      }
    }

    // The end of the loop's body: a full batch is inserted and a new one begun.
    method InsertWhenFull(total: int, tableToWeibo: Groups, flag: int, ghost stored: seq<Batch>,
            ghost before: seq<Batch>)
        returns (newTotal: int, newTable: Groups, newFlag: int, ghost newStored: seq<Batch>)
      requires inserted == before + stored
      modifies `inserted
      ensures inserted == before + newStored
      ensures Progress(newTotal, newTable, newFlag, newStored) == Filed(Progress(total, tableToWeibo, flag, stored))
    {
      newTotal, newTable, newFlag, newStored := total + 1, tableToWeibo, flag, stored;
      if newTotal >= 10000 {
        InsertData(tableToWeibo, flag, stored, before);
        newStored := stored + [Batch(tableToWeibo, flag)];
        newTable := map[];
        newTotal, newFlag := 0, 1;
      }
    }

    method InsertData(tableToWeibo: Groups, flag: int, ghost stored: seq<Batch>, ghost before: seq<Batch>)
      requires inserted == before + stored
      modifies `inserted
      ensures inserted == before + (stored + [Batch(tableToWeibo, flag)])
    {
      inserted := inserted + [Batch(tableToWeibo, flag)];
    }
  }
}
