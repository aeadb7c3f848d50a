/** Partitions of the added items into groups of insertion indices, and the item sets they stand
    for. */
module Partitions {
  import opened ItemSets
  import opened Sequences
  import opened Vectors

  type Partition = seq<seq<nat>>

  function Iota(n: nat): seq<nat> {
    seq(n, i requires 0 <= i < n => i)
  }

  // Every insertion index is in exactly one group; each group starts with its smallest index;
  // and the groups are sorted by that index.
  ghost predicate IsPartition(g: Partition, n: nat) {
    && multiset(Flat(g)) == multiset(Iota(n))
    && (forall k :: 0 <= k < |g| ==> |g[k]| > 0)
    && (forall k, j :: 0 <= k < |g| && 0 <= j < |g[k]| ==> g[k][0] <= g[k][j])
    && (forall k, k' :: 0 <= k < k' < |g| ==> g[k][0] < g[k'][0])
  }

  function Singletons(n: nat): Partition {
    seq(n, i requires 0 <= i < n => [i])
  }

  // Group r joined to group l, and removed.
  function MergeAt<T>(g: seq<seq<T>>, l: nat, r: nat): seq<seq<T>>
    requires l < r < |g|
  {
    g[l := g[l] + g[r]][..r] + g[r + 1..]
  }

  // Moving y next to x keeps the elements.
  lemma FlatMove<T>(a: seq<seq<T>>, x: seq<T>, b: seq<seq<T>>, y: seq<T>, c: seq<seq<T>>)
    ensures multiset(Flat(a + [x + y] + (b + c))) == multiset(Flat(a + [x] + (b + [y] + c)))
  {
    FlatInsert(a, x + y, b + c);
    FlatConcat(b, c);
    FlatInsert(a, x, b + [y] + c);
    FlatInsert(b, y, c);
  }

  lemma MergeParts<T>(g: seq<seq<T>>, l: nat, r: nat)
    requires l < r < |g|
    ensures g[..l] + [g[l]] + (g[l + 1..r] + [g[r]] + g[r + 1..]) == g
    ensures g[..l] + [g[l] + g[r]] + (g[l + 1..r] + g[r + 1..]) == MergeAt(g, l, r)
  {}

  lemma FlatMerge<T>(g: seq<seq<T>>, l: nat, r: nat)
    requires l < r < |g|
    ensures multiset(Flat(MergeAt(g, l, r))) == multiset(Flat(g))
  {
    MergeParts(g, l, r);
    FlatMove(g[..l], g[l], g[l + 1..r], g[r], g[r + 1..]);
  }

  lemma {:induction false} FlatSingletons(n: nat)
    ensures Flat(Singletons(n)) == Iota(n)
  {
    if n == 0 {
    } else {
      FlatSingletons(n - 1);
      assert Front(Singletons(n)) == Singletons(n - 1);
      assert Iota(n) == Iota(n - 1) + [n - 1];
    }
  }

  lemma SingletonsPartition(n: nat)
    ensures IsPartition(Singletons(n), n) && |Singletons(n)| == n
  {
    FlatSingletons(n);
  }

  // Each group after the merge still starts with the index it started with, its smallest.
  lemma MergedGroup(g: Partition, l: nat, r: nat, n: nat, k: nat)
    requires IsPartition(g, n) && l < r < |g| && k < |g| - 1
    ensures var m := MergeAt(g, l, r);
      && |m| == |g| - 1 && |m[k]| > 0 && m[k][0] == g[if k < r then k else k + 1][0]
      && forall j :: 0 <= j < |m[k]| ==> m[k][0] <= m[k][j]
  {
    hide Flat;
    var m := MergeAt(g, l, r);
    if k == l {
      assert m[k] == g[l] + g[r] && g[l][0] < g[r][0];
      forall j | 0 <= j < |m[k]| ensures m[k][0] <= m[k][j] {
        assert m[k][j] == if j < |g[l]| then g[l][j] else g[r][j - |g[l]|];
      }
    } else {
      assert m[k] == g[if k < r then k else k + 1];
    }
  }

  /** Merging keeps the partition: no index is lost or doubled, the joined group still starts with
      its smallest index, and the order by that index is kept. */
  lemma MergePartition(g: Partition, l: nat, r: nat, n: nat)
    requires IsPartition(g, n) && l < r < |g|
    ensures IsPartition(MergeAt(g, l, r), n)
    ensures |MergeAt(g, l, r)| == |g| - 1
  {
    FlatMerge(g, l, r);
    MergedGroup(g, l, r, n, l);
    hide MergeAt, Flat;
    var m := MergeAt(g, l, r);
    forall k | 0 <= k < |m| ensures |m[k]| > 0 && forall j :: 0 <= j < |m[k]| ==> m[k][0] <= m[k][j] {
      MergedGroup(g, l, r, n, k);
    }
    forall k, k' | 0 <= k < k' < |m| ensures m[k][0] < m[k'][0] {
      MergedGroup(g, l, r, n, k);
      MergedGroup(g, l, r, n, k');
    }
  }

  ghost predicate InRange(group: seq<nat>, n: nat) {
    forall k :: 0 <= k < |group| ==> group[k] < n
  }

  lemma PermutationInRange(s: seq<nat>, n: nat)
    requires multiset(s) == multiset(Iota(n))
    ensures InRange(s, n)
  {
    forall k | 0 <= k < |s| ensures s[k] < n {
      assert s[k] in multiset(s);
      assert s[k] in Iota(n);
    }
  }

  lemma PartitionInRange(g: Partition, n: nat)
    requires IsPartition(g, n)
    ensures InRange(Flat(g), n)
  {
    PermutationInRange(Flat(g), n);
  }

  lemma GroupInRange(g: Partition, n: nat, k: nat)
    requires IsPartition(g, n) && k < |g|
    ensures InRange(g[k], n)
  {
    PartitionInRange(g, n);
    FlatSplit(g, k);
    InRangeParts(Flat(g[..k]) + g[k], Flat(g[k + 1..]), n);
    InRangeParts(Flat(g[..k]), g[k], n);
  }

  lemma InRangeParts(a: seq<nat>, b: seq<nat>, n: nat)
    requires InRange(a + b, n)
    ensures InRange(a, n) && InRange(b, n)
  {
    forall k | 0 <= k < |a| ensures a[k] < n { assert (a + b)[k] == a[k]; }
    forall k | 0 <= k < |b| ensures b[k] < n { assert (a + b)[|a| + k] == b[k]; }
  }

  // --- Groups as item sets -----------------------------------------------------------------

  ghost function Select(items: seq<Item>, group: seq<nat>): (s: seq<Item>)
    requires InRange(group, |items|)
    ensures |s| == |group|
  {
    seq(|group|, k requires 0 <= k < |group| => items[group[k]])
  }

  lemma SelectDimension(items: seq<Item>, group: seq<nat>, dimension: nat)
    requires ItemsOfDimension(items, dimension) && InRange(group, |items|)
    ensures ItemsOfDimension(Select(items, group), dimension)
    ensures OfDimension(FeaturesOf(Select(items, group)), dimension)
  {
    forall k | 0 <= k < |group| ensures |Select(items, group)[k].features| == dimension {
      assert Select(items, group)[k] == items[group[k]];
    }
  }

  // The item set a group stands for: its smallest insertion index, the mean of its items'
  // features, and its items.
  ghost function GroupView(items: seq<Item>, dimension: nat, group: seq<nat>): View
    requires ItemsOfDimension(items, dimension) && |group| > 0 && InRange(group, |items|)
  {
    SelectDimension(items, group, dimension);
    var members := Select(items, group);
    View(group[0], Mean(FeaturesOf(members), dimension), members)
  }

  ghost function Views(items: seq<Item>, dimension: nat, g: Partition): (views: seq<View>)
    requires ItemsOfDimension(items, dimension) && IsPartition(g, |items|)
    ensures |views| == |g|
  {
    seq(|g|, k requires 0 <= k < |g| => (GroupInRange(g, |items|, k); GroupView(items, dimension, g[k])))
  }

  ghost function ItemLists(views: seq<View>): (lists: seq<seq<Item>>)
    ensures |lists| == |views|
  {
    seq(|views|, k requires 0 <= k < |views| => views[k].items)
  }

  lemma SelectConcat(items: seq<Item>, a: seq<nat>, b: seq<nat>)
    requires InRange(a + b, |items|)
    ensures InRange(a, |items|) && InRange(b, |items|)
    ensures Select(items, a + b) == Select(items, a) + Select(items, b)
  {
    InRangeParts(a, b, |items|);
  }

  lemma {:induction false} SelectFlat(items: seq<Item>, g: Partition, lists: seq<seq<Item>>)
    requires |lists| == |g| && InRange(Flat(g), |items|)
    requires forall k :: 0 <= k < |g| ==> InRange(g[k], |items|) && lists[k] == Select(items, g[k])
    ensures Flat(lists) == Select(items, Flat(g))
  {
    if |g| == 0 {
    } else {
      SelectConcat(items, Flat(Front(g)), Last(g));
      SelectFlat(items, Front(g), Front(lists));
    }
  }

  lemma {:induction false} SelectPermuted(items: seq<Item>, a: seq<nat>, b: seq<nat>)
    requires multiset(a) == multiset(b)
    requires InRange(a, |items|) && InRange(b, |items|)
    ensures multiset(Select(items, a)) == multiset(Select(items, b))
  {
    assert |a| == |multiset(a)| && |b| == |multiset(b)|;
    if |a| == 0 {
    } else {
      var k := LocateLast(a, b);
      var before, after, x := b[..k], b[k + 1..], Last(a);
      assert b == before + [x] + after && a == Front(a) + [x];
      SelectConcat(items, before + [x], after);
      SelectConcat(items, before, [x]);
      SelectConcat(items, before, after);
      SelectConcat(items, Front(a), [x]);
      SelectPermuted(items, Front(a), before + after);
    }
  }

  /** In every partition the item sets together hold exactly the added items. */
  lemma ItemsConserved(items: seq<Item>, dimension: nat, g: Partition)
    requires ItemsOfDimension(items, dimension) && IsPartition(g, |items|)
    ensures multiset(Flat(ItemLists(Views(items, dimension, g)))) == multiset(items)
  {
    var lists := ItemLists(Views(items, dimension, g));
    PartitionInRange(g, |items|);
    forall k | 0 <= k < |g| ensures InRange(g[k], |items|) && lists[k] == Select(items, g[k]) {
      GroupInRange(g, |items|, k);
    }
    SelectFlat(items, g, lists);
    SelectPermuted(items, Flat(g), Iota(|items|));
    assert Select(items, Iota(|items|)) == items;
  }
}
