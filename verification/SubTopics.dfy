/** The program around the clustering: which messages become items, and the items that represent
    each reported set. */
module SubTopics {
  import opened CategoryUtility
  import opened ClusterRuns
  import opened Clustering
  import opened ItemSets
  import opened Partitions
  import opened Representatives
  import opened Sequences
  import opened Vectors

  const MAX_PROCESS_SIZE := 500
  const REPRESENTING_ITEMS := 10

  // --- Choosing messages -------------------------------------------------------------------

  // A message with no keyword is the zero vector.
  predicate HasKeyword(message: seq<bool>) {
    true in message
  }

  // The first message of its text among those with a keyword.
  ghost predicate FirstOfText(vectors: seq<seq<bool>>, raw: seq<string>, i: nat)
    requires i < |vectors| == |raw|
  {
    HasKeyword(vectors[i]) && forall j :: 0 <= j < i && HasKeyword(vectors[j]) ==> raw[j] != raw[i]
  }

  lemma {:induction false} FirstExists(vectors: seq<seq<bool>>, raw: seq<string>, i: nat) returns (first: nat)
    requires i < |vectors| == |raw| && HasKeyword(vectors[i])
    ensures first <= i && FirstOfText(vectors, raw, first) && raw[first] == raw[i]
  {
    if FirstOfText(vectors, raw, i) {
      first := i;
    } else {
      var j :| 0 <= j < i && HasKeyword(vectors[j]) && raw[j] == raw[i];
      first := FirstExists(vectors, raw, j);
    }
  }

  // These are, in order, some of the first messages of their texts among the first n.
  ghost predicate Chosen(vectors: seq<seq<bool>>, raw: seq<string>, n: nat, ids: seq<nat>)
    requires |vectors| == |raw| && n <= |raw|
  {
    && |ids| <= MAX_PROCESS_SIZE
    && (forall k :: 0 <= k < |ids| ==> ids[k] < n && FirstOfText(vectors, raw, ids[k]))
    && (forall k, l :: 0 <= k < l < |ids| ==> ids[k] < ids[l])
  }

  // None of those is missing.
  ghost predicate Complete(vectors: seq<seq<bool>>, raw: seq<string>, n: nat, ids: seq<nat>)
    requires |vectors| == |raw| && n <= |raw|
  {
    forall i: nat :: i < n && FirstOfText(vectors, raw, i) ==> i in ids
  }

  // The texts of the messages with keywords among the first n, which are those chosen.
  ghost predicate Texts(vectors: seq<seq<bool>>, raw: seq<string>, n: nat, texts: set<string>)
    requires |vectors| == |raw| && n <= |raw|
  {
    forall text :: text in texts <==> exists j :: 0 <= j < n && HasKeyword(vectors[j]) && raw[j] == text
  }

  /** Of the messages with keywords the first of each text is chosen, in order, all of them or as
      many as are processed at most. */
  method ChooseMessages(vectors: seq<seq<bool>>, raw: seq<string>) returns (ids: seq<nat>)
    requires |vectors| == |raw|
    ensures Chosen(vectors, raw, |raw|, ids)
    ensures Complete(vectors, raw, |raw|, ids)
         || (|ids| == MAX_PROCESS_SIZE && Complete(vectors, raw, Last(ids), ids))
  {
    ids := [];
    var unique: set<string> := {};
    for i := 0 to |vectors|
      invariant Chosen(vectors, raw, i, ids) && Complete(vectors, raw, i, ids) && Texts(vectors, raw, i, unique)
    {
      ChooseNext(vectors, raw, i, ids, unique);
      if !HasKeyword(vectors[i]) {
        continue;
      }
      if |ids| >= MAX_PROCESS_SIZE {
        break;
      }
      if raw[i] in unique {
        continue;
      }
      unique := unique + {raw[i]};
      ids := ids + [i];
    }
  }

  lemma ChooseNext(vectors: seq<seq<bool>>, raw: seq<string>, i: nat, ids: seq<nat>, unique: set<string>)
    requires |vectors| == |raw| && i < |raw|
    requires Chosen(vectors, raw, i, ids) && Complete(vectors, raw, i, ids) && Texts(vectors, raw, i, unique)
    ensures FirstOfText(vectors, raw, i) <==> HasKeyword(vectors[i]) && raw[i] !in unique
    ensures !FirstOfText(vectors, raw, i) ==>
      Chosen(vectors, raw, i + 1, ids) && Complete(vectors, raw, i + 1, ids) && Texts(vectors, raw, i + 1, unique)
    ensures FirstOfText(vectors, raw, i) && |ids| < MAX_PROCESS_SIZE ==>
      && Chosen(vectors, raw, i + 1, ids + [i]) && Complete(vectors, raw, i + 1, ids + [i])
      && Texts(vectors, raw, i + 1, unique + {raw[i]})
  {
  }

  // --- Items of messages -------------------------------------------------------------------

  function Ones(message: seq<bool>): (features: Features)
    ensures |features| == |message| && NonNegative(features)
  {
    seq(|message|, i requires 0 <= i < |message| => if message[i] then 1.0 else 0.0)
  }

  function ItemsFor(vectors: seq<seq<bool>>, ids: seq<nat>): (items: seq<Item>)
    requires forall k :: 0 <= k < |ids| ==> ids[k] < |vectors|
    ensures |items| == |ids|
  {
    seq(|ids|, k requires 0 <= k < |ids| => Item(ids[k], Ones(vectors[ids[k]])))
  }

  method AdaptAll(vectors: seq<seq<bool>>, ids: seq<nat>) returns (items: seq<Item>)
    requires forall k :: 0 <= k < |ids| ==> ids[k] < |vectors|
    ensures items == ItemsFor(vectors, ids)
  {
    items := [];
    for k := 0 to |ids|
      invariant items == ItemsFor(vectors, ids[..k])
    {
      var item := AdaptBitset(ids[k], vectors[ids[k]]);
      assert item.features == Ones(vectors[ids[k]]);
      items := items + [item];
    }
    assert ids[..|ids|] == ids;
  }

  // A message with a keyword is chosen if there is one, so that there are items to cluster.
  lemma SomeChosen(vectors: seq<seq<bool>>, raw: seq<string>, dimension: nat, ids: seq<nat>)
    requires |vectors| == |raw| && Chosen(vectors, raw, |raw|, ids)
    requires Complete(vectors, raw, |raw|, ids) || |ids| == MAX_PROCESS_SIZE
    requires forall i :: 0 <= i < |vectors| ==> |vectors[i]| == dimension
    requires exists i :: 0 <= i < |vectors| && HasKeyword(vectors[i])
    ensures |ids| > 0 && ProperItems(ItemsFor(vectors, ids), dimension)
    ensures forall k :: 0 <= k < |ids| ==> NonNegative(ItemsFor(vectors, ids)[k].features)
  {
    var i :| 0 <= i < |vectors| && HasKeyword(vectors[i]);
    var first := FirstExists(vectors, raw, i);
  }

  // --- Reported sets -----------------------------------------------------------------------

  // The set has items, all among the given ones, and no negative coordinate.
  ghost predicate Sound(v: View, items: seq<Item>) {
    |v.items| > 0 && NonNegative(v.features) && forall x :: x in v.items ==> x in items
  }

  lemma PartitionSound(items: seq<Item>, dimension: nat, g: Partition)
    requires ProperItems(items, dimension) && IsPartition(g, |items|)
    requires forall k :: 0 <= k < |items| ==> NonNegative(items[k].features)
    ensures forall k :: 0 <= k < |g| ==> Sound(Views(items, dimension, g)[k], items)
  {
    ViewsNonNegative(items, dimension, g);
    forall k | 0 <= k < |g| ensures Sound(Views(items, dimension, g)[k], items) {
      GroupInRange(g, |items|, k);
      var members := Select(items, g[k]);
      forall x | x in members ensures x in items {
        var j :| 0 <= j < |g[k]| && members[j] == x;
        assert items[g[k][j]] == x;
      }
    }
  }

  lemma {:induction false} KeptSound(similar: Measure, items: seq<Item>, dimension: nat, trace: seq<Partition>)
    requires ProperItems(items, dimension) && IsRun(similar, items, dimension, trace)
    requires forall k :: 0 <= k < |items| ==> NonNegative(items[k].features)
    ensures forall v :: v in KeptAfter(similar, items, dimension, trace).cached ==> Sound(v, items)
  {
    var b := KeeperHoldsLatestBest(similar, items, dimension, trace);
    if b >= 0 {
      PartitionSound(items, dimension, trace[b]);
    }
  }

  lemma ReportedAmong(kept: seq<View>, total: nat, at: seq<nat>, results: seq<ItemSet>, s: ItemSet)
    requires Reported(kept, total, at, results) && s in results
    ensures s.Value() in kept
  {
    var k :| 0 <= k < |results| && results[k] == s;
    assert Values(results)[k] == kept[at[k]];
  }

  // The reported sets are sound.
  lemma ResultsSound(similar: Measure, items: seq<Item>, dimension: nat, results: seq<ItemSet>)
    requires ProperItems(items, dimension) && ResultsOfRun(similar, items, dimension, results)
    requires forall k :: 0 <= k < |items| ==> NonNegative(items[k].features)
    ensures forall s :: s in results ==> Sound(s.Value(), items)
  {
    var trace, at :| IsRun(similar, items, dimension, trace) && |trace| == |items| &&
      Reported(KeptAfter(similar, items, dimension, trace).cached, |items|, at, results);
    KeptSound(similar, items, dimension, trace);
    hide *;
    forall s | s in results ensures Sound(s.Value(), items) {
      ReportedAmong(KeptAfter(similar, items, dimension, trace).cached, |items|, at, results, s);
    }
  }

  // --- Representing items ------------------------------------------------------------------

  // Sets and items without negative coordinates, as items of bit vectors give them.
  ghost predicate AllNonNegative(itemSets: seq<ItemSet>)
    reads itemSets
  {
    forall s :: s in itemSets ==> NonNegative(s.features) && forall x :: x in s.items ==> NonNegative(x.features)
  }

  /** The representatives are the first ten of the set's own items in order of score, or all of them
      if there are fewer; all scores lie between 0 and 2. */
  ghost predicate Representing(sqrt: real -> real, itemSets: seq<ItemSet>, itemSet: ItemSet, chosen: seq<Item>)
    requires IsSquareRoot(sqrt) && itemSet in itemSets
    reads itemSets
  {
    OwnSetWeighable(itemSets, itemSet);
    var entries := Entries(sqrt, itemSets, itemSet);
    && multiset(chosen) <= multiset(itemSet.items)
    && (forall e :: e in entries ==> 0.0 <= e.0 <= 2.0)
    && exists order :: FirstOf(sqrt, itemSets, itemSet, REPRESENTING_ITEMS, chosen, order)
  }

  lemma EntriesBounded(sqrt: real -> real, itemSets: seq<ItemSet>, itemSet: ItemSet)
    requires IsSquareRoot(sqrt) && itemSet in itemSets && AllNonNegative(itemSets)
    requires Weighable(itemSets, itemSet)
    ensures forall e :: e in Entries(sqrt, itemSets, itemSet) ==> 0.0 <= e.0 <= 2.0
  {
    var entries := Entries(sqrt, itemSets, itemSet);
    TotalAtLeast(itemSets, itemSet);
    forall e | e in entries ensures 0.0 <= e.0 <= 2.0 {
      var k :| 0 <= k < |entries| && entries[k] == e;
      EvaluationBounds(sqrt, itemSets, itemSet, itemSet.items[k]);
    }
  }

  lemma TakenAmong(entries: seq<Scored>, size: int, taken: seq<Scored>, left: seq<Scored>, items: seq<Item>)
    requires IsTop(entries, size, taken, left) && ItemsOf(entries) == items
    ensures multiset(ItemsOf(taken)) <= multiset(items)
    ensures forall x :: x in ItemsOf(taken) ==> x in items
  {
    assert multiset(taken + left) == multiset(entries);
    MapPermuted((e: Scored) => e.1, taken + left, entries, ItemsOf(taken) + ItemsOf(left), items);
    assert multiset(ItemsOf(taken) + ItemsOf(left)) == multiset(items);
    forall x | x in ItemsOf(taken) ensures x in items {
      assert x in multiset(ItemsOf(taken));
      assert x in multiset(items);
    }
  }

  method GetRepresentingItems(sqrt: real -> real, itemSets: seq<ItemSet>, itemSet: ItemSet) returns (chosen: seq<Item>)
    requires IsSquareRoot(sqrt) && itemSet in itemSets && AllNonNegative(itemSets)
    ensures Representing(sqrt, itemSets, itemSet, chosen)
    ensures forall x :: x in chosen ==> x in itemSet.items
  {
    OwnSetWeighable(itemSets, itemSet);
    ghost var order;
    chosen, order := TopK(sqrt, itemSets, itemSet, REPRESENTING_ITEMS);
    EntriesBounded(sqrt, itemSets, itemSet);
    ghost var entries := Entries(sqrt, itemSets, itemSet);
    ghost var taken, left :| chosen == ItemsOf(taken) && IsTop(entries, REPRESENTING_ITEMS, taken, left);
    TakenAmong(entries, REPRESENTING_ITEMS, taken, left, itemSet.items);
  }

  // The item sets inside the results.
  method ExtractItemSets(results: seq<ClusterCached>) returns (itemSets: seq<ItemSet>)
    ensures itemSets == CachedSets(results)
  {
    itemSets := [];
    for k := 0 to |results|
      invariant itemSets == CachedSets(results[..k])
    {
      itemSets := itemSets + [results[k].cachedItemSet];
    }
    assert results[..|results|] == results;
  }

  // The tables hold the representatives of the first item sets, all of them given items.
  ghost predicate Stored(sqrt: real -> real, itemSets: seq<ItemSet>, items: seq<Item>, tables: seq<seq<Item>>)
    requires IsSquareRoot(sqrt)
    reads itemSets
  {
    && |tables| <= |itemSets|
    && forall k :: 0 <= k < |tables| ==>
         && itemSets[k] in itemSets
         && Representing(sqrt, itemSets, itemSets[k], tables[k])
         && forall x :: x in tables[k] ==> x in items
  }

  lemma StoredGrows(sqrt: real -> real, itemSets: seq<ItemSet>, items: seq<Item>, tables: seq<seq<Item>>,
      chosen: seq<Item>)
    requires IsSquareRoot(sqrt) && Stored(sqrt, itemSets, items, tables) && |tables| < |itemSets|
    requires itemSets[|tables|] in itemSets && Sound(itemSets[|tables|].Value(), items)
    requires Representing(sqrt, itemSets, itemSets[|tables|], chosen)
    requires forall x :: x in chosen ==> x in itemSets[|tables|].items
    ensures Stored(sqrt, itemSets, items, tables + [chosen])
  {
    hide Representing;
  }

  // The loop over the reported sets.
  method StoreTables(sqrt: real -> real, itemSets: seq<ItemSet>, ghost items: seq<Item>)
      returns (tables: seq<seq<Item>>)
    requires IsSquareRoot(sqrt) && forall s :: s in itemSets ==> Sound(s.Value(), items)
    requires forall k :: 0 <= k < |items| ==> NonNegative(items[k].features)
    ensures |tables| == |itemSets| && Stored(sqrt, itemSets, items, tables)
  {
    assert AllNonNegative(itemSets) by {
      assert forall s :: s in itemSets ==> Sound(s.Value(), items);
    }
    hide Representing, AllNonNegative, Sound;
    tables := [];
    for k := 0 to |itemSets|
      invariant |tables| == k && Stored(sqrt, itemSets, items, tables)
    {
      hide Stored;
      var chosen := GetRepresentingItems(sqrt, itemSets, itemSets[k]);
      StoredGrows(sqrt, itemSets, items, tables, chosen);
      tables := tables + [chosen];
    }
  }

  /** The whole program on vectorised messages: at most ten sets are reported, they are those a
      complete run over the chosen messages leaves, and each is stored with its representatives,
      every one the item of a chosen message. */
  method StoreSubTopics(sqrt: real -> real, vectors: seq<seq<bool>>, raw: seq<string>, ghost dimension: nat)
      returns (results: seq<ClusterCached>, tables: seq<seq<Item>>, ids: seq<nat>)
    requires IsSquareRoot(sqrt) && |vectors| == |raw|
    requires forall i :: 0 <= i < |vectors| ==> |vectors[i]| == dimension
    requires exists i :: 0 <= i < |vectors| && HasKeyword(vectors[i])
    ensures Chosen(vectors, raw, |raw|, ids)
    ensures Complete(vectors, raw, |raw|, ids)
         || (|ids| == MAX_PROCESS_SIZE && Complete(vectors, raw, Last(ids), ids))
    ensures |ids| > 0 && ProperItems(ItemsFor(vectors, ids), dimension)
    ensures ResultsOfRun(CosineWith(sqrt), ItemsFor(vectors, ids), dimension, CachedSets(results))
    ensures |tables| == |results| <= 10
    ensures Stored(sqrt, CachedSets(results), ItemsFor(vectors, ids), tables)
  {
    ids := ChooseMessages(vectors, raw);
    SomeChosen(vectors, raw, dimension, ids);
    hide *;
    var items := AdaptAll(vectors, ids);
    results := Cluster(sqrt, items, dimension);
    var itemSets := ExtractItemSets(results);
    ResultsSound(CosineWith(sqrt), items, dimension, itemSets);
    tables := StoreTables(sqrt, itemSets, items);
  }
}
