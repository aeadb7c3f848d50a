/** Agglomerative clustering: a list of item sets sorted by id, a table of pairwise similarities
    patched after every merge, and a keeper of the best list of sets seen. */
module Clustering {
  import opened CategoryUtility
  import opened ClusterRuns
  import opened ItemSets
  import opened Partitions
  import opened Sequences
  import Sorting
  import opened Vectors

  type Pair = (ItemSet, ItemSet)
  type SimilarityMap = map<Pair, real>

  // --- Auxiliary functions -----------------------------------------------------------------

  function MakeItemSetPair(a: ItemSet, b: ItemSet): Pair
    reads a, b
  {
    if a.id > b.id then (b, a) else (a, b)
  }

  ghost predicate SortedById(itemSets: seq<ItemSet>)
    reads itemSets
  {
    forall i, j :: 0 <= i < j < |itemSets| ==> itemSets[i].id < itemSets[j].id
  }

  // The first position whose id is not below the given one.
  method SearchItemSet(itemSets: seq<ItemSet>, itemSet: ItemSet) returns (pos: nat)
    requires SortedById(itemSets)
    ensures pos <= |itemSets|
    ensures forall k :: 0 <= k < pos ==> itemSets[k].id < itemSet.id
    ensures forall k :: pos <= k < |itemSets| ==> itemSets[k].id >= itemSet.id
  {
    pos := 0;
    while pos < |itemSets| && itemSets[pos].id < itemSet.id
      invariant pos <= |itemSets|
      invariant forall k :: 0 <= k < pos ==> itemSets[k].id < itemSet.id
    {
      pos := pos + 1;
    }
  }

  // The ids of the sets, in list order.
  ghost function IdsOf(itemSets: seq<ItemSet>): (ids: seq<int>)
    reads itemSets
    ensures |ids| == |itemSets|
  {
    seq(|itemSets|, k requires 0 <= k < |itemSets| reads itemSets => itemSets[k].id)
  }

  // How many ids, from the first on, are not above the given one.
  ghost function UpperBound(ids: seq<int>, id: int): (pos: nat)
    ensures pos <= |ids|
  {
    if |ids| == 0 || ids[0] > id then 0 else 1 + UpperBound(ids[1..], id)
  }

  lemma {:induction false} UpperBoundIs(ids: seq<int>, id: int, pos: nat)
    requires pos <= |ids| && (forall k :: 0 <= k < pos ==> ids[k] <= id)
    requires pos < |ids| ==> ids[pos] > id
    ensures pos == UpperBound(ids, id)
  {
    if pos == 0 {
    } else {
      UpperBoundIs(ids[1..], id, pos - 1);
    }
  }

  // The ids are sorted, in which they may repeat.
  ghost predicate Ascending(ids: seq<int>) {
    forall i, j :: 0 <= i < j < |ids| ==> ids[i] <= ids[j]
  }

  lemma InsertedInOrder(ids: seq<int>, id: int, p: nat)
    requires Ascending(ids) && p <= |ids|
    requires forall k :: 0 <= k < p ==> ids[k] <= id
    requires p < |ids| ==> ids[p] > id
    ensures Ascending(ids[..p] + [id] + ids[p..])
  {
    var r := ids[..p] + [id] + ids[p..];
    forall i, j | 0 <= i < j < |r| ensures r[i] <= r[j] {
      assert r[i] == if i < p then ids[i] else if i == p then id else ids[i - 1];
      assert r[j] == if j < p then ids[j] else if j == p then id else ids[j - 1];
      assert p < j ==> ids[p] <= ids[j - 1];
    }
  }

  // Inserts before the first set whose id is above the given one's.
  method InsertItemSet(itemSets: seq<ItemSet>, itemSet: ItemSet) returns (r: seq<ItemSet>)
    requires Ascending(IdsOf(itemSets))
    ensures var pos := UpperBound(IdsOf(itemSets), itemSet.id); r == itemSets[..pos] + [itemSet] + itemSets[pos..]
    ensures multiset(r) == multiset(itemSets) + multiset{itemSet} && Ascending(IdsOf(r))
  {
    ghost var ids := IdsOf(itemSets);
    var p := 0;
    while p < |itemSets| && itemSets[p].id <= itemSet.id
      invariant p <= |itemSets|
      invariant forall k :: 0 <= k < p ==> ids[k] <= itemSet.id
    {
      p := p + 1;
    }
    UpperBoundIs(ids, itemSet.id, p);
    InsertedInOrder(ids, itemSet.id, p);
    Sorting.InsertAdds(itemSets, itemSet, p);
    r := itemSets[..p] + [itemSet] + itemSets[p..];
    assert IdsOf(r) == ids[..p] + [itemSet.id] + ids[p..];
  }

  // A pair of greatest similarity; which one of several is left open.
  method FindMaxSimilarity(similarity: SimilarityMap) returns (best: Pair)
    requires similarity != map[]
    ensures best in similarity
    ensures forall p :: p in similarity ==> similarity[p] <= similarity[best]
  {
    var rest := similarity.Keys;
    assert rest == {} ==> similarity == map[];
    best :| best in rest;
    rest := rest - {best};
    while rest != {}
      invariant rest <= similarity.Keys && best in similarity
      invariant forall p :: p in similarity && p !in rest ==> similarity[p] <= similarity[best]
      decreases |rest|
    {
      var p :| p in rest;
      rest := rest - {p};
      if similarity[best] < similarity[p] {
        best := p;
      }
    }
  }

  // --- The keeper --------------------------------------------------------------------------

  // A deep copy of an item set.
  class ClusterCached {
    const cachedItemSet: ItemSet

    constructor (source: ItemSet)
      ensures fresh(cachedItemSet)
      ensures cachedItemSet.Value() == source.Value()
    {
      cachedItemSet := new ItemSet.Empty();
      new;
      cachedItemSet.SetId(source.id);
      cachedItemSet.SetFeatures(source.features);
      for k := 0 to |source.items|
        invariant cachedItemSet.id == source.id && cachedItemSet.features == source.features
        invariant cachedItemSet.items == source.items[..k]
      {
        cachedItemSet.AddItem(source.items[k]);
      }
      assert source.items[..|source.items|] == source.items;
    }
  }

  ghost function CachedSets(cached: seq<ClusterCached>): (sets: seq<ItemSet>)
    ensures |sets| == |cached|
  {
    seq(|cached|, k requires 0 <= k < |cached| => cached[k].cachedItemSet)
  }

  // The sets have the given values.
  ghost predicate Live(itemSets: seq<ItemSet>, views: seq<View>)
    reads itemSets
  {
    |itemSets| == |views| && forall k :: 0 <= k < |views| ==> itemSets[k].Value() == views[k]
  }

  class StateKeeper {
    var evaluator: Evaluator
    var maxCuValue: real
    var cachedItemSets: seq<ClusterCached>
    ghost var kept: Kept

    ghost predicate Valid()
      reads this, CachedSets(cachedItemSets)
    {
      kept.maxCu == maxCuValue && Live(CachedSets(cachedItemSets), kept.cached)
    }

    constructor ()
      ensures Valid() && kept == Kept(INITIAL_MAX_CU, []) && cachedItemSets == []
    {
      evaluator := Evaluator(0, 0.0);
      maxCuValue, cachedItemSets := INITIAL_MAX_CU, [];
      kept := Kept(INITIAL_MAX_CU, []);
    }

    method Init(itemSets: seq<ItemSet>, ghost items: seq<Item>, ghost dimension: nat)
      requires |itemSets| == |items| && ProperItems(items, dimension)
      requires forall k :: 0 <= k < |items| ==> itemSets[k].features == items[k].features
      modifies this`evaluator
      ensures evaluator == EvaluatorOf(items, dimension)
    {
      var features: seq<Features> := [];
      for k := 0 to |itemSets|
        invariant features == FeaturesOf(items[..k])
      {
        features := features + [itemSets[k].features];
      }
      assert items[..|items|] == items;
      FeaturesDimension(items, dimension);
      var mean := CalculateMean(features, |itemSets[0].features|);
      var sum := CalculateSumOfSquares(mean);
      evaluator := Evaluator(|itemSets|, sum);
    }

    method Update(itemSets: seq<ItemSet>, ghost views: seq<View>)
      requires Valid() && evaluator.size > 0 && |itemSets| > 0 && Live(itemSets, views)
      modifies this`maxCuValue, this`cachedItemSets, this`kept
      ensures Valid() && kept == Keep(old(kept), evaluator, views)
      ensures cachedItemSets == old(cachedItemSets) || forall c :: c in cachedItemSets ==> fresh(c.cachedItemSet)
    {
      assert Values(itemSets) == views;
      var current := Evaluate(evaluator, itemSets);
      if current < maxCuValue {
        return;
      }
      var copies := CopySets(itemSets, views);
      maxCuValue, cachedItemSets := current, copies;
      kept := Kept(current, views);
    }
  }

  // The loop of Update: fresh copies of all sets.
  method CopySets(itemSets: seq<ItemSet>, ghost views: seq<View>) returns (copies: seq<ClusterCached>)
    requires Live(itemSets, views)
    ensures Live(CachedSets(copies), views)
    ensures forall c :: c in copies ==> fresh(c.cachedItemSet)
  {
    copies := [];
    for k := 0 to |itemSets|
      invariant |copies| == k
      invariant forall c :: c in copies ==> fresh(c.cachedItemSet)
      invariant forall j :: 0 <= j < k ==> copies[j].cachedItemSet.Value() == views[j]
    {
      var copy := new ClusterCached(itemSets[k]);
      copies := copies + [copy];
    }
  }

  // --- The similarity table ----------------------------------------------------------------

  // The entries are pairs of the sets, the smaller id first.
  ghost predicate OrderedPairs(itemSets: seq<ItemSet>, similarity: SimilarityMap)
    reads itemSets
  {
    forall p :: p in similarity ==> p.0 in itemSets && p.1 in itemSets && p.0.id < p.1.id
  }

  // The table agrees with recomputing it: one entry for each id-ordered pair of sets, holding the
  // similarity of their features, and no other.
  ghost predicate Indexed(similar: Measure, itemSets: seq<ItemSet>, similarity: SimilarityMap)
    reads itemSets
  {
    && OrderedPairs(itemSets, similarity)
    && forall a, b :: a in itemSets && b in itemSets && a.id < b.id ==>
         (a, b) in similarity && similarity[(a, b)] == similar(a.features, b.features)
  }

  method EraseRelated(similarity: SimilarityMap, itemSets: seq<ItemSet>, right: ItemSet) returns (rest: SimilarityMap)
    requires forall s :: s in itemSets ==> s.id != right.id
    ensures forall p :: p in rest ==> p in similarity && rest[p] == similarity[p]
    ensures forall p :: p in similarity ==>
      (p in rest <==> forall s :: s in itemSets ==> p != MakeItemSetPair(s, right))
  {
    rest := similarity;
    for k := 0 to |itemSets|
      invariant forall p :: p in rest ==> p in similarity && rest[p] == similarity[p]
      invariant forall p :: p in similarity ==>
        (p in rest <==> forall j :: 0 <= j < k ==> p != MakeItemSetPair(itemSets[j], right))
    {
      if itemSets[k].id == right.id {
        continue;
      }
      rest := rest - {MakeItemSetPair(itemSets[k], right)};
    }
  }

  method UpdateRelated(sqrt: real -> real, similarity: SimilarityMap, itemSets: seq<ItemSet>, left: ItemSet)
      returns (patched: SimilarityMap)
    requires IsSquareRoot(sqrt)
    ensures forall p :: p in similarity ==> p in patched
    ensures forall s :: s in itemSets && s.id != left.id ==>
      && MakeItemSetPair(s, left) in patched
      && patched[MakeItemSetPair(s, left)] == CosineWith(sqrt)(left.features, s.features)
    ensures forall p :: p in patched ==>
      || (p in similarity && patched[p] == similarity[p])
      || exists s :: s in itemSets && s.id != left.id && p == MakeItemSetPair(s, left)
  {
    patched := similarity;
    for k := 0 to |itemSets|
      invariant forall p :: p in similarity ==> p in patched
      invariant forall j :: 0 <= j < k && itemSets[j].id != left.id ==>
        MakeItemSetPair(itemSets[j], left) in patched
        && patched[MakeItemSetPair(itemSets[j], left)] == CosineWith(sqrt)(left.features, itemSets[j].features)
      invariant forall p :: p in patched ==>
        || (p in similarity && patched[p] == similarity[p])
        || exists j :: 0 <= j < k && itemSets[j].id != left.id && p == MakeItemSetPair(itemSets[j], left)
    {
      if itemSets[k].id == left.id {
        continue;
      }
      var value := left.Similarity(sqrt, itemSets[k]);
      patched := patched[MakeItemSetPair(itemSets[k], left) := value];
    }
  }

  // One row of the table: the pairs of set i with the sets after it.
  method FillRow(sqrt: real -> real, itemSets: seq<ItemSet>, similarity: SimilarityMap,
          i: nat) returns (filled: SimilarityMap)
    requires IsSquareRoot(sqrt) && SortedById(itemSets) && i < |itemSets|
    requires TableFrom(CosineWith(sqrt), itemSets, similarity, i, i + 1)
    ensures TableFrom(CosineWith(sqrt), itemSets, filled, i, |itemSets|)
  {
    filled := similarity;
    for j := i + 1 to |itemSets|
      invariant TableFrom(CosineWith(sqrt), itemSets, filled, i, j)
    {
      var value := itemSets[i].Similarity(sqrt, itemSets[j]);
      TableGrows(CosineWith(sqrt), itemSets, filled, i, j, value);
      filled := filled[MakeItemSetPair(itemSets[i], itemSets[j]) := value];
    }
  }

  method BuildTable(sqrt: real -> real, itemSets: seq<ItemSet>) returns (similarity: SimilarityMap)
    requires IsSquareRoot(sqrt) && SortedById(itemSets)
    ensures Indexed(CosineWith(sqrt), itemSets, similarity)
  {
    similarity := map[];
    for i := 0 to |itemSets|
      invariant TableFrom(CosineWith(sqrt), itemSets, similarity, i, i + 1)
    {
      similarity := FillRow(sqrt, itemSets, similarity, i);
      TableNextRow(CosineWith(sqrt), itemSets, similarity, i);
    }
    TableComplete(CosineWith(sqrt), itemSets, similarity);
  }

  // The table holds the rows before row i, and row i before column j.
  ghost predicate TableFrom(similar: Measure, itemSets: seq<ItemSet>, similarity: SimilarityMap, i: nat, j: nat)
    reads itemSets
  {
    && (forall a, b :: 0 <= a < b < |itemSets| && (a < i || (a == i && b < j)) ==>
          && (itemSets[a], itemSets[b]) in similarity
          && similarity[(itemSets[a], itemSets[b])] == similar(itemSets[a].features, itemSets[b].features))
    && OrderedPairs(itemSets, similarity)
  }

  lemma TableGrows(similar: Measure, itemSets: seq<ItemSet>, similarity: SimilarityMap, i: nat,
          j: nat, value: real)
    requires SortedById(itemSets) && i < j < |itemSets|
    requires TableFrom(similar, itemSets, similarity, i, j)
    requires value == similar(itemSets[i].features, itemSets[j].features)
    ensures TableFrom(similar, itemSets, similarity[(itemSets[i], itemSets[j]) := value], i, j + 1)
  {
    var grown := similarity[(itemSets[i], itemSets[j]) := value];
    forall a, b | 0 <= a < b < |itemSets| && (a < i || (a == i && b <= j))
      ensures (itemSets[a], itemSets[b]) in grown
      ensures grown[(itemSets[a], itemSets[b])] == similar(itemSets[a].features, itemSets[b].features)
    {
      assert (itemSets[a], itemSets[b]) == (itemSets[i], itemSets[j]) ==> a == i && b == j;
    }
  }

  lemma TableNextRow(similar: Measure, itemSets: seq<ItemSet>, similarity: SimilarityMap, i: nat)
    requires i < |itemSets|
    requires TableFrom(similar, itemSets, similarity, i, |itemSets|)
    ensures TableFrom(similar, itemSets, similarity, i + 1, i + 2)
  {}

  lemma TableComplete(similar: Measure, itemSets: seq<ItemSet>, similarity: SimilarityMap)
    requires SortedById(itemSets)
    requires TableFrom(similar, itemSets, similarity, |itemSets|, |itemSets| + 1)
    ensures Indexed(similar, itemSets, similarity)
  {
    forall a, b | a in itemSets && b in itemSets && a.id < b.id
      ensures (a, b) in similarity && similarity[(a, b)] == similar(a.features, b.features)
    {
      var i :| 0 <= i < |itemSets| && itemSets[i] == a;
      var j :| 0 <= j < |itemSets| && itemSets[j] == b;
      assert i < j;
    }
  }

  // The table after a merge, before patching: still with the removed set, and with old values
  // where the merged set is concerned.
  ghost predicate Stale(similar: Measure, itemSets: seq<ItemSet>, similarity: SimilarityMap, left: ItemSet,
          right: ItemSet)
    reads itemSets, right
  {
    && OrderedPairs(itemSets + [right], similarity)
    && forall a, b :: a in itemSets && b in itemSets && a.id < b.id && a != left && b != left ==>
         (a, b) in similarity && similarity[(a, b)] == similar(a.features, b.features)
  }

  ghost predicate Unpatched(similar: Measure, itemSets: seq<ItemSet>, similarity: SimilarityMap, left: ItemSet,
          right: ItemSet)
    reads itemSets, right
  {
    && left in itemSets && right !in itemSets
    && (forall s :: s in itemSets ==> s.id != right.id && (s.id == left.id ==> s == left))
    && Stale(similar, itemSets, similarity, left, right)
  }

  /** Erasing the removed set's pairs and recomputing the merged set's restores the table. */
  method PatchTable(sqrt: real -> real, similarity: SimilarityMap, itemSets: seq<ItemSet>, left: ItemSet,
          right: ItemSet)
      returns (patched: SimilarityMap)
    requires IsSquareRoot(sqrt) && Unpatched(CosineWith(sqrt), itemSets, similarity, left, right)
    ensures Indexed(CosineWith(sqrt), itemSets, patched)
  {
    var erased := EraseRelated(similarity, itemSets, right);
    ErasedPairs(CosineWith(sqrt), itemSets, similarity, left, right, erased);
    patched := UpdateRelated(sqrt, erased, itemSets, left);
    forall x, y { CosineSymmetric(sqrt, x, y); }
    PatchedValues(CosineWith(sqrt), itemSets, left, erased, patched);
  }

  lemma ErasedPairs(similar: Measure, itemSets: seq<ItemSet>, similarity: SimilarityMap,
          left: ItemSet, right: ItemSet, erased: SimilarityMap)
    requires right !in itemSets && Stale(similar, itemSets, similarity, left, right)
    requires forall s :: s in itemSets ==> s.id != right.id
    requires forall p :: p in erased ==> p in similarity && erased[p] == similarity[p]
    requires forall p :: p in similarity ==>
      (p in erased <==> forall s :: s in itemSets ==> p != MakeItemSetPair(s, right))
    ensures OrderedPairs(itemSets, erased)
    ensures forall a, b :: a in itemSets && b in itemSets && a.id < b.id && a != left && b != left ==>
      (a, b) in erased && erased[(a, b)] == similar(a.features, b.features)
  {
    forall p | p in similarity && (p.0 == right || p.1 == right) ensures p !in erased {
      assert p == MakeItemSetPair(if p.0 == right then p.1 else p.0, right);
    }
  }

  lemma PatchedValues(similar: Measure, itemSets: seq<ItemSet>, left: ItemSet,
          erased: SimilarityMap, patched: SimilarityMap)
    requires left in itemSets && forall s :: s in itemSets && s.id == left.id ==> s == left
    requires forall x, y :: similar(x, y) == similar(y, x)
    requires OrderedPairs(itemSets, erased)
    requires forall a, b :: a in itemSets && b in itemSets && a.id < b.id && a != left && b != left ==>
      (a, b) in erased && erased[(a, b)] == similar(a.features, b.features)
    requires forall p :: p in erased ==> p in patched
    requires forall s :: s in itemSets && s.id != left.id ==>
      MakeItemSetPair(s, left) in patched && patched[MakeItemSetPair(s, left)] == similar(left.features, s.features)
    requires forall p :: p in patched ==>
      || (p in erased && patched[p] == erased[p])
      || exists s :: s in itemSets && s.id != left.id && p == MakeItemSetPair(s, left)
    ensures Indexed(similar, itemSets, patched)
  {
    forall a, b | a in itemSets && b in itemSets && a.id < b.id
      ensures (a, b) in patched && patched[(a, b)] == similar(a.features, b.features)
    {
      if a == left {
        assert (a, b) == MakeItemSetPair(b, left);
      } else if b == left {
        assert (a, b) == MakeItemSetPair(a, left);
      } else {
        assert (a, b) in erased;
      }
    }
  }

  // --- The clustering procedure ------------------------------------------------------------

  class HierarchyClustering {
    var itemSets: seq<ItemSet>
    var similarity: SimilarityMap
    const keeper: StateKeeper
    const sqrt: real -> real
    // The measure of similarity, the items added, the dimension they share, the values of the live
    // sets, and, once prepared, the partitions gone through.
    ghost const similar: Measure
    ghost const dimension: nat
    ghost var added: seq<Item>
    ghost var views: seq<View>
    ghost var trace: seq<Partition>
    // The item sets this object may change.
    ghost var owned: set<ItemSet>

    // Every object the state is read from.
    ghost function Objects(): set<object>
      reads this, keeper
    {
      {this, keeper} + owned + (set s | s in CachedSets(keeper.cachedItemSets))
    }

    // The recorded values are those of the live and the cached sets; the live sets are owned, the
    // cached ones are not.
    ghost predicate Consistent()
      reads this, keeper, Objects()
    {
      && (forall s :: s in itemSets ==> s in owned)
      && (forall c :: c in keeper.cachedItemSets ==> c.cachedItemSet !in owned)
      && IsSquareRoot(sqrt) && similar == CosineWith(sqrt)
      && Live(itemSets, views) && keeper.Valid()
    }

    // While items are added: one set for each.
    ghost predicate Collecting()
      reads this, keeper, Objects()
    {
      && Consistent() && trace == [] && similarity == map[]
      && keeper.kept == Kept(INITIAL_MAX_CU, []) && keeper.cachedItemSets == []
      && ItemsOfDimension(added, dimension) && SingletonValues(added, views)
    }

    // From Prepare on: the sets are those of the last partition of a run, the table agrees with
    // recomputing it, and the keeper holds what the run leaves it.
    ghost predicate Prepared()
      reads this, keeper, Objects()
    {
      && Consistent()
      && AtEndOf(similar, added, dimension, trace, views)
      && Tabulated(similar, itemSets, views, similarity)
      && keeper.evaluator == EvaluatorOf(added, dimension)
      && keeper.kept == KeptAfter(similar, added, dimension, trace)
    }

    constructor (sqrt: real -> real, ghost dimension: nat)
      requires IsSquareRoot(sqrt)
      ensures Collecting() && added == [] && this.sqrt == sqrt && this.dimension == dimension
      ensures similar == CosineWith(sqrt) && fresh(keeper) && itemSets == [] && owned == {}
    {
      this.sqrt, this.dimension, similar := sqrt, dimension, CosineWith(sqrt);
      itemSets, similarity := [], map[];
      keeper := new StateKeeper();
      added, views, trace, owned := [], [], [], {};
    }

    /** A set of the one item, whose id is the length of the list, joins the list where its id belongs;
        nothing else changes. While items are being collected that is the end. */
    method AddItem(item: Item)
      requires Consistent() && Ascending(ViewIds(views))
      modifies this`itemSets, this`views, this`added, this`owned
      ensures Consistent() && Ascending(ViewIds(views))
      ensures views == InsertView(old(views), View(|old(views)|, item.features, [item]))
      ensures added == old(added) + [item] && fresh(owned - old(owned))
      ensures old(Collecting()) && |item.features| == dimension ==> Collecting()
    {
      hide InsertView, SingletonValues, Ascending, IsSquareRoot, CosineWith;
      ghost var itemSet;
      itemSets, itemSet := AppendSingleton(itemSets, item, views);
      SingletonAtEnd(added, views, item);
      views := InsertView(views, View(|views|, item.features, [item]));
      added := added + [item];
      owned := owned + {itemSet};
    }

    method AddItems(items: seq<Item>)
      requires Collecting() && added == [] && ItemsOfDimension(items, dimension)
      modifies this
      ensures Collecting() && added == items && fresh(owned - old(owned))
    {
      for k := 0 to |items|
        invariant Collecting() && added == items[..k] && fresh(owned - old(owned))
      {
        SingletonsOrdered(added, views);
        AddItem(items[k]);
        assert items[..k + 1] == items[..k] + [items[k]];
      }
      assert items[..|items|] == items;
    }

    method MoveUntilStop()
      requires Prepared()
      modifies this`itemSets, this`similarity, this`views, this`trace, keeper, owned
      ensures Prepared() && !NotStop()
    {
      while NotStop()
        invariant Prepared()
        decreases |itemSets|
      {
        SingleMove();
      }
    }

    /** Builds the table and sets up the keeper; there must be an item. */
    method Prepare()
      requires Collecting() && |itemSets| > 0
      modifies this`similarity, this`trace, keeper
      ensures Prepared() && trace == [Singletons(|added|)]
      ensures keeper.cachedItemSets == old(keeper.cachedItemSets)
    {
      hide AtEndOf, Tabulated, KeptAfter, EvaluatorOf, SingletonValues, IsSquareRoot, CosineWith;
      CollectedSets(itemSets, added, views);
      StartsAtSingletons(similar, added, dimension, views);
      similarity := Tabulate(sqrt, itemSets, views);
      keeper.Init(itemSets, added, dimension);
      trace := [Singletons(|added|)];
    }

    predicate NotStop()
      reads this
    {
      |itemSets| > 1
    }

    /** Merges a most similar pair, removes the second set, patches the table, and shows the keeper
        the new list when it is short enough. */
    method SingleMove()
      requires Prepared() && NotStop()
      modifies this`itemSets, this`similarity, this`views, this`trace, keeper, owned
      ensures Prepared() && |trace| > 0 && Front(trace) == old(trace)
      ensures |itemSets| < |old(itemSets)|
    {
      MoveSets();
      if |itemSets| <= TRIGGER_SIZE {
        keeper.Update(itemSets, views);
      }
    }

    /** The kept sets that hold at least a tenth of their items, in order. */
    method GetClusterResults() returns (results: seq<ClusterCached>, ghost at: seq<nat>)
      requires keeper.Valid()
      ensures PicksAt(results, keeper.cachedItemSets, at)
      ensures var cached := keeper.cachedItemSets; forall k: nat ::
        k in at <==> k < |cached| && 10 * |cached[k].cachedItemSet.items| >= |Flat(ItemLists(keeper.kept.cached))|
    {
      var size := CountCached(keeper.cachedItemSets, keeper.kept.cached);
      ItemCountIsFlat(keeper.kept.cached);
      results, at := KeepLarge(keeper.cachedItemSets, keeper.kept.cached, size);
    }

    // The move without the keeper, which is left one state behind.
    method MoveSets()
      requires Prepared() && NotStop()
      modifies this`itemSets, this`similarity, this`views, this`trace, owned
      ensures Consistent() && |views| > 0
      ensures AtEndOf(similar, added, dimension, trace, views) && |trace| > 0 && Front(trace) == old(trace)
      ensures Tabulated(similar, itemSets, views, similarity)
      ensures KeptAfter(similar, added, dimension, trace)
           == (if |itemSets| > TRIGGER_SIZE then keeper.kept else Keep(keeper.kept, keeper.evaluator, views))
      ensures |itemSets| < |old(itemSets)|
    {
      hide AtEndOf, Tabulated, KeptAfter;
      var rest, patched;
      ghost var trace', views';
      rest, patched, trace', views' :=
        MergeAndPatch(sqrt, similar, similarity, itemSets, added, dimension, trace, views);
      itemSets, similarity, trace, views := rest, patched, trace', views';
    }
  }

  // The two loops of GetClusterResults: the number of items, and the sets that are not small.
  method CountCached(cached: seq<ClusterCached>, ghost kept: seq<View>) returns (size: nat)
    requires Live(CachedSets(cached), kept)
    ensures size == ItemCount(kept)
  {
    size := 0;
    for k := 0 to |cached|
      invariant size == ItemCount(kept[..k])
    {
      assert Front(kept[..k + 1]) == kept[..k];
      assert CachedSets(cached)[k].Value() == kept[k];
      size := size + |cached[k].cachedItemSet.items|;
    }
    assert kept[..|cached|] == kept;
  }

  method KeepLarge(cached: seq<ClusterCached>, ghost kept: seq<View>, size: nat)
      returns (results: seq<ClusterCached>, ghost at: seq<nat>)
    requires Live(CachedSets(cached), kept) && size == ItemCount(kept)
    ensures PicksAt(results, cached, at)
    ensures forall k: nat :: k in at <==> k < |cached| && 10 * |cached[k].cachedItemSet.items| >= size
  {
    results, at := [], [];
    for k := 0 to |cached|
      invariant PicksAt(results, cached[..k], at)
      invariant forall j: nat :: j in at <==> j < k && 10 * |cached[j].cachedItemSet.items| >= size
    {
      assert CachedSets(cached)[k].Value() == kept[k];
      ItemCountAtLeast(kept, k);
      assert cached[..k + 1] == cached[..k] + [cached[k]];
      PicksNext(results, cached[..k], at, cached[k]);
      var small := IsSmall(|cached[k].cachedItemSet.items|, size);
      if !small {
        results := results + [cached[k]];
        at := at + [k];
      }
    }
    assert cached[..|cached|] == cached;
  }

  // Whether a share is below the threshold; 0/0 is not.
  method IsSmall(currentSize: nat, size: nat) returns (small: bool)
    requires size == 0 ==> currentSize == 0
    ensures small <==> 10 * currentSize < size
  {
    if size == 0 {
      return false;
    }
    BelowTenth(currentSize, size);
    small := currentSize as real / size as real < FILTER_OUT_THRESHOLD;
  }

  ghost function ViewIds(views: seq<View>): (ids: seq<int>)
    ensures |ids| == |views|
  {
    seq(|views|, k requires 0 <= k < |views| => views[k].id)
  }

  lemma LiveIds(itemSets: seq<ItemSet>, views: seq<View>)
    requires Live(itemSets, views)
    ensures IdsOf(itemSets) == ViewIds(views)
  {
    assert forall k :: 0 <= k < |views| ==> itemSets[k].Value().id == views[k].id;
  }

  ghost function InsertView(views: seq<View>, v: View): seq<View> {
    var pos := UpperBound(ViewIds(views), v.id);
    views[..pos] + [v] + views[pos..]
  }

  // A new set of one item, whose id is the length of the list, is inserted where its id belongs.
  method AppendSingleton(itemSets: seq<ItemSet>, item: Item, ghost views: seq<View>)
      returns (r: seq<ItemSet>, ghost itemSet: ItemSet)
    requires Live(itemSets, views) && Ascending(ViewIds(views))
    ensures fresh(itemSet) && forall s :: s in r ==> s in itemSets || s == itemSet
    ensures var v := View(|views|, item.features, [item]);
      Live(r, InsertView(views, v)) && Ascending(ViewIds(InsertView(views, v)))
  {
    var newSet := new ItemSet.OfItem(item);
    newSet.SetId(|itemSets|);
    itemSet := newSet;
    assert Live(itemSets, views);
    LiveIds(itemSets, views);
    r := InsertItemSet(itemSets, newSet);
    LiveInserted(itemSets, views, newSet, r);
  }

  lemma LiveInserted(itemSets: seq<ItemSet>, views: seq<View>, s: ItemSet, r: seq<ItemSet>)
    requires Live(itemSets, views) && Ascending(IdsOf(r))
    requires var pos := UpperBound(ViewIds(views), s.id); r == itemSets[..pos] + [s] + itemSets[pos..]
    ensures Live(r, InsertView(views, s.Value())) && Ascending(ViewIds(InsertView(views, s.Value())))
    ensures forall x :: x in r ==> x in itemSets || x == s
  {
    var pos := UpperBound(ViewIds(views), s.id);
    var inserted := InsertView(views, s.Value());
    forall k | 0 <= k < |inserted| ensures r[k].Value() == inserted[k] {
      if k > pos {
        assert r[k] == itemSets[k - 1] && inserted[k] == views[k - 1];
      }
    }
    LiveIds(r, inserted);
  }

  // Among sets of one item each, in order, the next one goes to the end.
  lemma SingletonAtEnd(items: seq<Item>, views: seq<View>, item: Item)
    ensures SingletonValues(items, views) ==>
      var v := View(|views|, item.features, [item]);
      InsertView(views, v) == views + [v] && SingletonValues(items + [item], views + [v])
  {
    if SingletonValues(items, views) {
      UpperBoundIs(ViewIds(views), |views|, |views|);
    }
  }

  lemma SingletonsOrdered(items: seq<Item>, views: seq<View>)
    requires SingletonValues(items, views)
    ensures Ascending(ViewIds(views))
  {}

  ghost predicate SingletonValues(items: seq<Item>, views: seq<View>) {
    |views| == |items| && forall k :: 0 <= k < |items| ==> views[k] == View(k, items[k].features, [items[k]])
  }

  lemma CollectedSets(itemSets: seq<ItemSet>, items: seq<Item>, views: seq<View>)
    requires Live(itemSets, views) && SingletonValues(items, views)
    ensures |itemSets| == |items|
    ensures forall k :: 0 <= k < |items| ==> itemSets[k].features == items[k].features
    ensures forall i, j :: 0 <= i < j < |views| ==> views[i].id < views[j].id
  {
    assert forall k :: 0 <= k < |itemSets| ==> itemSets[k].Value().features == items[k].features;
  }

  lemma {:induction false} StartsAtSingletons(similar: Measure, items: seq<Item>, dimension: nat, views: seq<View>)
    requires ProperItems(items, dimension) && SingletonValues(items, views)
    ensures AtEndOf(similar, items, dimension, [Singletons(|items|)], views)
    ensures KeptAfter(similar, items, dimension, [Singletons(|items|)]) == Kept(INITIAL_MAX_CU, [])
  {
    RunStarts(similar, items, dimension);
    SingletonViewsAre(items, dimension);
    assert views == Views(items, dimension, Singletons(|items|));
  }

  // The views are the item sets of the last partition of a run.
  ghost predicate AtEndOf(similar: Measure, items: seq<Item>, dimension: nat, trace: seq<Partition>, views: seq<View>) {
    && ProperItems(items, dimension) && IsRun(similar, items, dimension, trace)
    && views == EndViews(similar, items, dimension, trace)
  }

  ghost function EndViews(similar: Measure, items: seq<Item>, dimension: nat, trace: seq<Partition>): seq<View>
    requires ProperItems(items, dimension) && IsRun(similar, items, dimension, trace)
  {
    LastPartition(similar, items, dimension, trace);
    Views(items, dimension, Last(trace))
  }

  // p is a pair of the list, earlier set first.
  ghost predicate InOrder(itemSets: seq<ItemSet>, p: Pair) {
    exists i, j :: 0 <= i < j < |itemSets| && itemSets[i] == p.0 && itemSets[j] == p.1
  }

  // The table has the similarity of sets i and j, by their values.
  ghost predicate Entry(similar: Measure, itemSets: seq<ItemSet>, views: seq<View>, similarity: SimilarityMap,
          i: int, j: int)
    requires 0 <= i < j < |itemSets| == |views|
  {
    && (itemSets[i], itemSets[j]) in similarity
    && similarity[(itemSets[i], itemSets[j])] == similar(views[i].features, views[j].features)
  }

  /** The table agrees with recomputing it from the sets' values: its keys are exactly the pairs of
      the list in order, which is the order of their ids, and each entry is their similarity. */
  ghost predicate Tabulated(similar: Measure, itemSets: seq<ItemSet>, views: seq<View>, similarity: SimilarityMap) {
    && |itemSets| == |views|
    && (forall p :: p in similarity ==> InOrder(itemSets, p))
    && (forall i, j :: 0 <= i < j < |views| ==> views[i].id < views[j].id)
    && forall i, j :: 0 <= i < j < |itemSets| ==> Entry(similar, itemSets, views, similarity, i, j)
  }

  lemma TabulatedIsIndexed(similar: Measure, itemSets: seq<ItemSet>, views: seq<View>,
          similarity: SimilarityMap)
    requires Live(itemSets, views) && Tabulated(similar, itemSets, views, similarity)
    ensures SortedById(itemSets) && Indexed(similar, itemSets, similarity)
  {
    forall k | 0 <= k < |views| ensures itemSets[k].id == views[k].id && itemSets[k].features == views[k].features {
      assert itemSets[k].Value() == views[k];
    }
    forall p | p in similarity ensures p.0 in itemSets && p.1 in itemSets && p.0.id < p.1.id {
      assert InOrder(itemSets, p);
    }
    forall a, b | a in itemSets && b in itemSets && a.id < b.id
      ensures (a, b) in similarity && similarity[(a, b)] == similar(a.features, b.features)
    {
      var i :| 0 <= i < |itemSets| && itemSets[i] == a;
      var j :| 0 <= j < |itemSets| && itemSets[j] == b;
      assert i < j && Entry(similar, itemSets, views, similarity, i, j);
    }
  }

  lemma IndexedIsTabulated(similar: Measure, itemSets: seq<ItemSet>, views: seq<View>,
          similarity: SimilarityMap)
    requires Live(itemSets, views) && SortedById(itemSets) && Indexed(similar, itemSets, similarity)
    ensures Tabulated(similar, itemSets, views, similarity)
  {
    forall k | 0 <= k < |views| ensures itemSets[k].id == views[k].id && itemSets[k].features == views[k].features {
      assert itemSets[k].Value() == views[k];
    }
    forall p | p in similarity ensures InOrder(itemSets, p) {
      var i :| 0 <= i < |itemSets| && itemSets[i] == p.0;
      var j :| 0 <= j < |itemSets| && itemSets[j] == p.1;
      assert i < j;
    }
    forall i, j | 0 <= i < j < |itemSets| ensures Entry(similar, itemSets, views, similarity, i, j) {
      assert itemSets[i] in itemSets && itemSets[j] in itemSets;
    }
  }

  method Tabulate(sqrt: real -> real, itemSets: seq<ItemSet>,
          ghost views: seq<View>) returns (similarity: SimilarityMap)
    requires IsSquareRoot(sqrt) && Live(itemSets, views)
    requires forall i, j :: 0 <= i < j < |views| ==> views[i].id < views[j].id
    ensures Tabulated(CosineWith(sqrt), itemSets, views, similarity)
  {
    assert forall k :: 0 <= k < |views| ==> itemSets[k].id == views[k].id;
    similarity := BuildTable(sqrt, itemSets);
    IndexedIsTabulated(CosineWith(sqrt), itemSets, views, similarity);
  }

  // After a merge the table is stale only where the merged and the removed set are concerned.
  lemma StaleAfterMerge(similar: Measure, itemSets: seq<ItemSet>, views: seq<View>,
          similarity: SimilarityMap,
                                           l: nat, r: nat, rest: seq<ItemSet>)
    requires l < r < |itemSets| && rest == itemSets[..r] + itemSets[r + 1..]
    requires Tabulated(similar, itemSets, views, similarity)
    requires SortedById(itemSets)
    requires forall k :: 0 <= k < |itemSets| && k != l ==> itemSets[k].features == views[k].features
    ensures Unpatched(similar, rest, similarity, itemSets[l], itemSets[r])
    ensures forall s :: s in rest ==> s in itemSets
  {
    RestOf(itemSets, l, r, rest);
    forall p | p in similarity ensures p.0 in itemSets && p.1 in itemSets && p.0.id < p.1.id {
      assert InOrder(itemSets, p);
    }
    forall a, b | a in rest && b in rest && a.id < b.id && a != itemSets[l] && b != itemSets[l]
      ensures (a, b) in similarity && similarity[(a, b)] == similar(a.features, b.features)
    {
      StaleEntry(similar, itemSets, views, similarity, l, a, b);
    }
  }

  lemma StaleEntry(similar: Measure, itemSets: seq<ItemSet>, views: seq<View>,
          similarity: SimilarityMap,
                                      l: nat, a: ItemSet, b: ItemSet)
    requires l < |itemSets| && Tabulated(similar, itemSets, views, similarity) && SortedById(itemSets)
    requires forall k :: 0 <= k < |itemSets| && k != l ==> itemSets[k].features == views[k].features
    requires a in itemSets && b in itemSets && a.id < b.id && a != itemSets[l] && b != itemSets[l]
    ensures (a, b) in similarity && similarity[(a, b)] == similar(a.features, b.features)
  {
    var i :| 0 <= i < |itemSets| && itemSets[i] == a;
    var j :| 0 <= j < |itemSets| && itemSets[j] == b;
    assert i < j && Entry(similar, itemSets, views, similarity, i, j);
  }

  lemma RestOf(itemSets: seq<ItemSet>, l: nat, r: nat, rest: seq<ItemSet>)
    requires l < r < |itemSets| && rest == itemSets[..r] + itemSets[r + 1..] && SortedById(itemSets)
    ensures itemSets[l] in rest && itemSets[r] !in rest
    ensures forall s :: s in itemSets <==> s in rest + [itemSets[r]]
    ensures forall s :: s in rest ==>
      s in itemSets && s.id != itemSets[r].id && (s.id == itemSets[l].id ==> s == itemSets[l])
  {
    assert itemSets[l] == rest[l];
    forall s | s in itemSets ensures s in rest + [itemSets[r]] {
      var k :| 0 <= k < |itemSets| && itemSets[k] == s;
      assert k < r ==> rest[k] == s;
      assert k > r ==> rest[k - 1] == s;
    }
    forall k | 0 <= k < |rest| ensures rest[k] in itemSets && rest[k].id != itemSets[r].id
      ensures rest[k].id == itemSets[l].id ==> rest[k] == itemSets[l]
    {
      assert rest[k] == itemSets[if k < r then k else k + 1];
    }
  }

  // The most similar pair, by the table.
  method PickClosest(ghost similar: Measure, similarity: SimilarityMap, itemSets: seq<ItemSet>,
                     ghost items: seq<Item>, ghost dimension: nat, ghost g: Partition)
      returns (left: ItemSet, right: ItemSet, ghost l: nat, ghost r: nat)
    requires Represents(itemSets, items, dimension, g) && Indexed(similar, itemSets, similarity) && |itemSets| > 1
    ensures l < r < |itemSets| && left == itemSets[l] && right == itemSets[r]
    ensures Closest(similar, Views(items, dimension, g), l, r)
  {
    RepresentedSorted(itemSets, items, dimension, g);
    assert (itemSets[0], itemSets[1]) in similarity;
    var best := FindMaxSimilarity(similarity);
    left, right := best.0, best.1;
    l :| 0 <= l < |itemSets| && itemSets[l] == left;
    r :| 0 <= r < |itemSets| && itemSets[r] == right;
    ClosestInTable(similar, itemSets, similarity, items, dimension, g, l, r);
  }

  lemma SimilarityInTable(similar: Measure, itemSets: seq<ItemSet>, similarity: SimilarityMap,
                                             items: seq<Item>, dimension: nat, g: Partition, i: nat, j: nat)
    requires Represents(itemSets, items, dimension, g) && Indexed(similar, itemSets, similarity) && SortedById(itemSets)
    requires i < j < |itemSets|
    ensures (itemSets[i], itemSets[j]) in similarity
    ensures similarity[(itemSets[i], itemSets[j])] ==
      similar(Views(items, dimension, g)[i].features, Views(items, dimension, g)[j].features)
  {
    var views := Views(items, dimension, g);
    assert views[i].features == itemSets[i].Value().features && views[j].features == itemSets[j].Value().features;
  }

  lemma ClosestInTable(similar: Measure, itemSets: seq<ItemSet>, similarity: SimilarityMap,
                                          items: seq<Item>, dimension: nat, g: Partition, l: nat, r: nat)
    requires Represents(itemSets, items, dimension, g) && Indexed(similar, itemSets, similarity) && SortedById(itemSets)
    requires l < |itemSets| && r < |itemSets| && (itemSets[l], itemSets[r]) in similarity
    requires forall p :: p in similarity ==> similarity[p] <= similarity[(itemSets[l], itemSets[r])]
    ensures Closest(similar, Views(items, dimension, g), l, r)
  {
    var views := Views(items, dimension, g);
    assert l < r;
    forall i, j | 0 <= i < j < |itemSets|
      ensures similar(views[i].features, views[j].features) <= similar(views[l].features, views[r].features)
    {
      SimilarityInTable(similar, itemSets, similarity, items, dimension, g, i, j);
      SimilarityInTable(similar, itemSets, similarity, items, dimension, g, l, r);
    }
  }

  // Represented sets are sorted by id.
  lemma RepresentedSorted(itemSets: seq<ItemSet>, items: seq<Item>, dimension: nat, g: Partition)
    requires Represents(itemSets, items, dimension, g)
    ensures SortedById(itemSets)
  {
    forall k | 0 <= k < |g| ensures itemSets[k].id == g[k][0] {
      assert itemSets[k].Value() == Views(items, dimension, g)[k];
    }
  }

  method RemoveItemSet(itemSets: seq<ItemSet>, itemSet: ItemSet, ghost r: nat) returns (rest: seq<ItemSet>)
    requires SortedById(itemSets) && r < |itemSets| && itemSets[r] == itemSet
    ensures rest == itemSets[..r] + itemSets[r + 1..]
  {
    var pos := SearchItemSet(itemSets, itemSet);
    assert pos < |itemSets| ==> itemSets[pos].id >= itemSet.id;
    assert pos == r;
    rest := itemSets[..pos] + itemSets[pos + 1..];
  }

  /** Merging the set at r into the set at l and removing it gives the sets of the merged
      partition; the list stays sorted, so the search by id finds the set meant. */
  method MergePair(itemSets: seq<ItemSet>, left: ItemSet, right: ItemSet,
                   ghost items: seq<Item>, ghost dimension: nat, ghost g: Partition, ghost l: nat, ghost r: nat)
      returns (rest: seq<ItemSet>)
    requires ProperItems(items, dimension) && Represents(itemSets, items, dimension, g)
    requires l < r < |itemSets| && left == itemSets[l] && right == itemSets[r]
    modifies left
    ensures forall k :: 0 <= k < |itemSets| ==> itemSets[k].id == old(itemSets[k].id)
    ensures forall k :: 0 <= k < |itemSets| && k != l ==> itemSets[k].features == old(itemSets[k].features)
    ensures SortedById(itemSets)
    ensures rest == itemSets[..r] + itemSets[r + 1..]
    ensures Represents(rest, items, dimension, MergeAt(g, l, r))
  {
    RepresentedSorted(itemSets, items, dimension, g);
    MergedView(itemSets, items, dimension, g, l, r);
    left.Merge(right);
    rest := RemoveItemSet(itemSets, right, r);
    forall k | 0 <= k < |rest| ensures rest[k].Value() == Views(items, dimension, MergeAt(g, l, r))[k] {
      if k != l {
        var k' := if k < r then k else k + 1;
        assert rest[k] == itemSets[k'];
        assert itemSets[k'].Value() == old(itemSets[k'].Value());
      }
    }
  }

  /** A move, on the list and the table: a most similar pair is merged, the run is one move longer,
      and list and table agree with the new last partition. */
  method MergeAndPatch(sqrt: real -> real, ghost similar: Measure, similarity: SimilarityMap, itemSets: seq<ItemSet>,
                       ghost items: seq<Item>, ghost dimension: nat, ghost trace: seq<Partition>,
                       ghost views: seq<View>)
      returns (rest: seq<ItemSet>, patched: SimilarityMap, ghost trace': seq<Partition>, ghost views': seq<View>)
    requires IsSquareRoot(sqrt) && similar == CosineWith(sqrt)
    requires AtEndOf(similar, items, dimension, trace, views)
    requires |itemSets| > 1 && Live(itemSets, views) && Tabulated(similar, itemSets, views, similarity)
    modifies itemSets
    ensures AtEndOf(similar, items, dimension, trace', views')
    ensures |trace'| > 0 && Front(trace') == trace
    ensures KeptAfter(similar, items, dimension, trace')
         == (if |rest| > TRIGGER_SIZE then KeptAfter(similar, items, dimension, trace)
             else Keep(KeptAfter(similar, items, dimension, trace), EvaluatorOf(items, dimension), views'))
    ensures 0 < |views'| < |itemSets| && Live(rest, views') && Tabulated(similar, rest, views', patched)
    ensures forall s :: s in rest ==> s in itemSets
  {
    ghost var g := Last(trace);
    LastPartition(similar, items, dimension, trace);
    var left, right;
    ghost var l, r;
    rest, left, right, l, r := MergeMostSimilar(similar, similarity, itemSets, items, dimension, g, views);
    patched := PatchTable(sqrt, similarity, rest, left, right);
    trace', views' := ExtendRun(similar, items, dimension, trace, views, l, r);
    RepresentedSorted(rest, items, dimension, MergeAt(g, l, r));
    IndexedIsTabulated(similar, rest, views', patched);
  }

  lemma ExtendRun(similar: Measure, items: seq<Item>, dimension: nat, trace: seq<Partition>,
          views: seq<View>, l: nat, r: nat)
      returns (trace': seq<Partition>, views': seq<View>)
    requires AtEndOf(similar, items, dimension, trace, views) && Closest(similar, views, l, r)
    ensures IsPartition(Last(trace), |items|) && l < r < |Last(trace)|
    ensures IsPartition(MergeAt(Last(trace), l, r), |items|)
    ensures |trace'| > 0 && Front(trace') == trace && Last(trace') == MergeAt(Last(trace), l, r)
    ensures AtEndOf(similar, items, dimension, trace', views') && |views'| > 0
    ensures KeptAfter(similar, items, dimension, trace')
         == (if |views'| > TRIGGER_SIZE then KeptAfter(similar, items, dimension, trace)
             else Keep(KeptAfter(similar, items, dimension, trace), EvaluatorOf(items, dimension), views'))
  {
    LastPartition(similar, items, dimension, trace);
    RunExtends(similar, items, dimension, trace, l, r);
    trace' := trace + [MergeAt(Last(trace), l, r)];
    views' := Views(items, dimension, Last(trace'));
  }

  method MergeMostSimilar(ghost similar: Measure, similarity: SimilarityMap, itemSets: seq<ItemSet>,
                          ghost items: seq<Item>, ghost dimension: nat, ghost g: Partition, ghost views: seq<View>)
      returns (rest: seq<ItemSet>, left: ItemSet, right: ItemSet, ghost l: nat, ghost r: nat)
    requires ProperItems(items, dimension) && IsPartition(g, |items|) && views == Views(items, dimension, g)
    requires |itemSets| > 1 && Live(itemSets, views) && Tabulated(similar, itemSets, views, similarity)
    modifies itemSets
    ensures Closest(similar, views, l, r)
    ensures Represents(rest, items, dimension, MergeAt(g, l, r))
    ensures Unpatched(similar, rest, similarity, left, right)
    ensures forall s :: s in rest ==> s in itemSets
  {
    RepresentedSorted(itemSets, items, dimension, g);
    TabulatedIsIndexed(similar, itemSets, views, similarity);
    left, right, l, r := PickClosest(similar, similarity, itemSets, items, dimension, g);
    rest := MergePair(itemSets, left, right, items, dimension, g, l, r);
    StaleAfterMerge(similar, itemSets, views, similarity, l, r, rest);
  }

  // What the merged partition's views are, in terms of the sets before the merge.
  lemma MergedView(itemSets: seq<ItemSet>, items: seq<Item>, dimension: nat, g: Partition, l: nat,
          r: nat)
    requires ProperItems(items, dimension) && Represents(itemSets, items, dimension, g) && l < r < |g|
    ensures var left, right := itemSets[l], itemSets[r];
      && |left.items| > 0 && |left.features| == dimension
      && ItemsOfDimension(left.items, dimension) && ItemsOfDimension(right.items, dimension)
    ensures IsPartition(MergeAt(g, l, r), |items|) && |MergeAt(g, l, r)| == |g| - 1
    ensures var left, right, views := itemSets[l], itemSets[r], Views(items, dimension, MergeAt(g, l, r));
      && OfDimension(FeaturesOf(left.items + right.items), dimension)
      && views[l] == View(left.id, Mean(FeaturesOf(left.items + right.items), dimension), left.items + right.items)
      && forall k :: 0 <= k < |views| && k != l ==> views[k] == itemSets[if k < r then k else k + 1].Value()
  {
    var views, m := Views(items, dimension, g), MergeAt(g, l, r);
    assert itemSets[l].Value() == views[l] && itemSets[r].Value() == views[r];
    ViewsMerged(items, dimension, g, l, r);
    ViewsConsistent(items, dimension, m);
    ViewsConsistent(items, dimension, g);
    assert Views(items, dimension, m)[l].id == g[l][0];
    DimensionOfFeatures(itemSets[l].items, dimension);
    DimensionOfFeatures(itemSets[r].items, dimension);
  }

  lemma DimensionOfFeatures(items: seq<Item>, dimension: nat)
    requires OfDimension(FeaturesOf(items), dimension)
    ensures ItemsOfDimension(items, dimension)
  {
    forall k | 0 <= k < |items| ensures |items[k].features| == dimension {
      assert FeaturesOf(items)[k] == items[k].features;
    }
  }

  // The sets are the item sets of partition g, in order.
  ghost predicate Represents(itemSets: seq<ItemSet>, items: seq<Item>, dimension: nat, g: Partition)
    reads itemSets
  {
    && ItemsOfDimension(items, dimension) && IsPartition(g, |items|)
    && |itemSets| == |g|
    && forall k :: 0 <= k < |g| ==> itemSets[k].Value() == Views(items, dimension, g)[k]
  }

  // The view of a set holding one item.
  lemma SingletonView(items: seq<Item>, dimension: nat, k: nat)
    requires ItemsOfDimension(items, dimension) && k < |items|
    ensures InRange([k], |items|)
    ensures GroupView(items, dimension, [k]) == View(k, items[k].features, [items[k]])
  {
    assert Select(items, [k]) == [items[k]];
    assert FeaturesOf([items[k]]) == [items[k].features];
    MeanOfOne(items[k].features);
  }

  lemma SingletonViewsAre(items: seq<Item>, dimension: nat)
    requires ItemsOfDimension(items, dimension)
    ensures IsPartition(Singletons(|items|), |items|)
    ensures forall k :: 0 <= k < |items| ==>
      Views(items, dimension, Singletons(|items|))[k] == View(k, items[k].features, [items[k]])
  {
    SingletonsPartition(|items|);
    forall k | 0 <= k < |items|
      ensures Views(items, dimension, Singletons(|items|))[k] == View(k, items[k].features, [items[k]])
    {
      SingletonView(items, dimension, k);
    }
  }

  // --- Filtering and whole runs ------------------------------------------------------------

  const FILTER_OUT_THRESHOLD: real := 0.1

  lemma {:induction false} ItemCountAtLeast(views: seq<View>, k: nat)
    requires k < |views|
    ensures ItemCount(views) >= |views[k].items|
  {
    if k == |views| - 1 {
    } else {
      ItemCountAtLeast(Front(views), k);
    }
  }

  lemma BelowTenth(n: nat, size: nat)
    requires size > 0
    ensures n as real / size as real < 0.1 <==> 10 * n < size
  {
    var q, s := n as real / size as real, size as real;
    TimesQuotient(n as real, s);
    TenthOf(q, s, n as real);
    assert 10 * n < size <==> 10.0 * n as real < s;
  }

  lemma TenthOf(q: real, s: real, n: real)
    requires s > 0.0 && s * q == n
    ensures q < 0.1 <==> 10.0 * n < s
  {
    SignOfProduct(s, q - 0.1, n - s / 10.0);
  }

  lemma SignOfProduct(s: real, d: real, p: real)
    requires s > 0.0 && p == s * d
    ensures p < 0.0 <==> d < 0.0
  {}

  // These positions of what the keeper holds are those of its sets with at least a tenth of the
  // items, and the results have the values of these sets.
  ghost predicate Reported(kept: seq<View>, total: nat, at: seq<nat>, results: seq<ItemSet>)
    reads results
  {
    PicksAt(Values(results), kept, at) && LargePositions(kept, total, at)
  }

  // So they are for the sets some complete run over the items leaves with the keeper.
  ghost predicate ResultsOfRun(similar: Measure, items: seq<Item>, dimension: nat, results: seq<ItemSet>)
    requires ProperItems(items, dimension)
    reads results
  {
    exists trace, at :: IsRun(similar, items, dimension, trace) && |trace| == |items| &&
      Reported(KeptAfter(similar, items, dimension, trace).cached, |items|, at, results)
  }

  /** A whole run, as the program drives it: every item is added, and moves are made until one set
      is left. It takes one move less than there are items, and the results are the large sets of
      the latest state of greatest utility (CompleteRun), at most ten. */
  method Cluster(sqrt: real -> real, items: seq<Item>, ghost dimension: nat) returns (results: seq<ClusterCached>)
    requires IsSquareRoot(sqrt) && ProperItems(items, dimension)
    ensures ResultsOfRun(CosineWith(sqrt), items, dimension, CachedSets(results))
    ensures |results| <= 10
  {
    var procedure := new HierarchyClustering(sqrt, dimension);
    procedure.AddItems(items);
    procedure.Prepare();
    procedure.MoveUntilStop();
    ghost var at;
    results, at := procedure.GetClusterResults();
    ReportedResults(procedure.keeper, results, at);
    RunPartitions(procedure.similar, items, dimension, procedure.trace, |procedure.trace| - 1);
    FewResults(procedure.similar, items, dimension, procedure.trace, at, CachedSets(results));
  }

  // The cached sets reported, by their values.
  lemma ReportedResults(keeper: StateKeeper, results: seq<ClusterCached>, at: seq<nat>)
    requires keeper.Valid() && PicksAt(results, keeper.cachedItemSets, at)
    requires var cached := keeper.cachedItemSets; forall k: nat ::
      k in at <==> k < |cached| && 10 * |cached[k].cachedItemSet.items| >= |Flat(ItemLists(keeper.kept.cached))|
    ensures Reported(keeper.kept.cached, ItemCount(keeper.kept.cached), at, CachedSets(results))
  {
    var cached, kept := keeper.cachedItemSets, keeper.kept.cached;
    ItemCountIsFlat(kept);
    assert forall k :: 0 <= k < |cached| ==> CachedSets(cached)[k].Value() == kept[k];
  }

  lemma {:induction false} FewResults(similar: Measure, items: seq<Item>, dimension: nat, trace: seq<Partition>,
          at: seq<nat>, results: seq<ItemSet>)
    requires ProperItems(items, dimension) && IsRun(similar, items, dimension, trace) && |trace| == |items|
    requires var kept := KeptAfter(similar, items, dimension, trace).cached;
      Reported(kept, ItemCount(kept), at, results)
    ensures Reported(KeptAfter(similar, items, dimension, trace).cached, |items|, at, results)
    ensures |results| <= 10
  {
    var kept := KeptAfter(similar, items, dimension, trace).cached;
    var large := LargePicks(kept, ItemCount(kept));
    SamePicks(Values(results), kept, at, Large(kept, ItemCount(kept)), large);
    if |items| == 1 {
      SingleItemRun(similar, items, dimension, trace);
    } else {
      var b := CompleteRun(similar, items, dimension, trace);
    }
  }
}
