/** Whole runs of hierarchical clustering, as sequences of partitions, and what holds of them for
    any measure of similarity. */
module ClusterRuns {
  import opened CategoryUtility
  import opened ItemSets
  import opened Partitions
  import opened Sequences
  import opened Sums
  import opened Vectors

  const TRIGGER_SIZE: nat := 20
  const INITIAL_MAX_CU: real := -1.0

  ghost predicate ProperItems(items: seq<Item>, dimension: nat) {
    |items| > 0 && ItemsOfDimension(items, dimension)
  }

  lemma FeaturesDimension(items: seq<Item>, dimension: nat)
    requires ItemsOfDimension(items, dimension)
    ensures OfDimension(FeaturesOf(items), dimension)
  {}

  ghost function EvaluatorOf(items: seq<Item>, dimension: nat): Evaluator
    requires ProperItems(items, dimension)
  {
    FeaturesDimension(items, dimension);
    Evaluator(|items|, SumOfSquares(Mean(FeaturesOf(items), dimension)))
  }

  lemma PartitionNonEmpty(g: Partition, n: nat)
    requires IsPartition(g, n) && n > 0
    ensures |g| > 0
  {
    assert Iota(n)[0] in multiset(Iota(n));
    assert |g| == 0 ==> Flat(g) == [];
  }

  ghost function PartitionUtility(items: seq<Item>, dimension: nat, g: Partition): real
    requires ProperItems(items, dimension) && IsPartition(g, |items|)
  {
    PartitionNonEmpty(g, |items|);
    Utility(EvaluatorOf(items, dimension), Views(items, dimension, g))
  }

  // --- The item sets of a partition --------------------------------------------------------

  lemma ViewsConsistent(items: seq<Item>, dimension: nat, g: Partition)
    requires ProperItems(items, dimension) && IsPartition(g, |items|)
    ensures Consistent(Views(items, dimension, g), dimension)
    ensures ItemCount(Views(items, dimension, g)) == |items|
  {
    var views := Views(items, dimension, g);
    forall k | 0 <= k < |g|
      ensures |views[k].items| > 0 && OfDimension(FeaturesOf(views[k].items), dimension)
      ensures views[k].features == Mean(FeaturesOf(views[k].items), dimension)
    {
      GroupInRange(g, |items|, k);
      SelectDimension(items, g[k], dimension);
    }
    ItemsConserved(items, dimension, g);
    ItemCountIsFlat(views);
    assert |multiset(items)| == |items|;
    assert |multiset(Flat(ItemLists(views)))| == |Flat(ItemLists(views))|;
  }

  lemma GroupViewMerged(items: seq<Item>, dimension: nat, a: seq<nat>, b: seq<nat>)
    requires ItemsOfDimension(items, dimension) && |a| > 0 && |b| > 0
    requires InRange(a, |items|) && InRange(b, |items|)
    ensures InRange(a + b, |items|)
    ensures var x, y := GroupView(items, dimension, a), GroupView(items, dimension, b);
      var z := GroupView(items, dimension, a + b);
      && z.id == x.id && z.items == x.items + y.items
      && z.features == Combine(|x.items|, x.features, |y.items|, y.features)
  {
    SelectConcat(items, a, b);
    SelectDimension(items, a, dimension);
    SelectDimension(items, b, dimension);
    FeaturesConcat(Select(items, a), Select(items, b));
    MeanConcat(FeaturesOf(Select(items, a)), FeaturesOf(Select(items, b)), dimension);
  }

  lemma ViewsMerged(items: seq<Item>, dimension: nat, g: Partition, l: nat, r: nat)
    requires ProperItems(items, dimension) && IsPartition(g, |items|) && l < r < |g|
    ensures IsPartition(MergeAt(g, l, r), |items|)
    ensures Consistent(Views(items, dimension, g), dimension)
    ensures Merged(Views(items, dimension, g), l, r, Views(items, dimension, MergeAt(g, l, r)), dimension)
  {
    hide GroupView, Mean, Combine, Flat, Consistent;
    MergePartition(g, l, r, |items|);
    ViewsConsistent(items, dimension, g);
    GroupInRange(g, |items|, l);
    GroupInRange(g, |items|, r);
    GroupViewMerged(items, dimension, g[l], g[r]);
    var m := MergeAt(g, l, r);
    assert m[l] == g[l] + g[r];
    forall k | 0 <= k < |m| && k != l
      ensures Views(items, dimension, m)[k] == Views(items, dimension, g)[if k < r then k else k + 1]
    {
      assert m[k] == g[if k < r then k else k + 1];
    }
  }

  /** When no item has a negative coordinate, no item set of a partition has. */
  lemma ViewsNonNegative(items: seq<Item>, dimension: nat, g: Partition)
    requires ProperItems(items, dimension) && IsPartition(g, |items|)
    requires forall k :: 0 <= k < |items| ==> NonNegative(items[k].features)
    ensures forall k :: 0 <= k < |g| ==> NonNegative(Views(items, dimension, g)[k].features)
  {
    forall k | 0 <= k < |g| ensures NonNegative(Views(items, dimension, g)[k].features) {
      GroupInRange(g, |items|, k);
      SelectDimension(items, g[k], dimension);
      var fs := FeaturesOf(Select(items, g[k]));
      assert forall j :: 0 <= j < |fs| ==> fs[j] == items[g[k][j]].features;
      MeanNonNegative(fs, dimension);
    }
  }

  // --- The utility of a partition ----------------------------------------------------------

  lemma SignOfTimes(n: nat, r: real)
    requires n > 0
    ensures Times(n, r) >= 0.0 <==> r >= 0.0
    ensures Times(n, r) == 0.0 <==> r == 0.0
  {
    TimesIsProduct(n, r);
  }

  // The summed contributions, n times: the energy over that of all items in one set.
  lemma {:induction false} ContributionsOfPartition(items: seq<Item>, dimension: nat, g: Partition)
    requires ProperItems(items, dimension) && IsPartition(g, |items|)
    ensures var ev, views := EvaluatorOf(items, dimension), Views(items, dimension, g);
      Times(|items|, Contributions(ev, views)) == Energy(views) - Times(|items|, ev.sumOfSquares)
  {
    ViewsConsistent(items, dimension, g);
    ContributionsAsEnergy(EvaluatorOf(items, dimension), Views(items, dimension, g));
  }

  lemma JoinedMean(items: seq<Item>, dimension: nat, g: Partition)
    requires ProperItems(items, dimension) && IsPartition(g, |items|)
    ensures var all := FeaturesOf(Flat(ItemLists(Views(items, dimension, g))));
      |all| > 0 && OfDimension(all, dimension)
      && SumOfSquares(Mean(all, dimension)) == EvaluatorOf(items, dimension).sumOfSquares
  {
    ItemsConserved(items, dimension, g);
    var flat := Flat(ItemLists(Views(items, dimension, g)));
    MapPermuted((x: Item) => x.features, flat, items, FeaturesOf(flat), FeaturesOf(items));
    FeaturesDimension(items, dimension);
    PermutedDimension(FeaturesOf(items), FeaturesOf(flat), dimension);
    MeanPermuted(FeaturesOf(items), FeaturesOf(flat), dimension);
  }

  lemma PermutedDimension(u: seq<Features>, v: seq<Features>, dimension: nat)
    requires multiset(u) == multiset(v) && OfDimension(u, dimension)
    ensures OfDimension(v, dimension)
  {
    forall k | 0 <= k < |v| ensures |v[k]| == dimension {
      assert v[k] in multiset(v);
      assert v[k] in u;
    }
  }

  /** On every partition the category utility is not negative, so the first one evaluated always
      replaces the initial maximum of -1. */
  lemma UtilityNonNegative(items: seq<Item>, dimension: nat, g: Partition)
    requires ProperItems(items, dimension) && IsPartition(g, |items|)
    ensures PartitionUtility(items, dimension, g) >= 0.0
  {
    var ev, views := EvaluatorOf(items, dimension), Views(items, dimension, g);
    PartitionNonEmpty(g, |items|);
    ViewsConsistent(items, dimension, g);
    EnergyAtLeastJoined(views, dimension);
    JoinedMean(items, dimension, g);
    ContributionsOfPartition(items, dimension, g);
    SignOfTimes(|items|, Contributions(ev, views));
    QuotientNonNegative(Contributions(ev, views), |views| as real);
  }

  /** With everything in one set the category utility is exactly 0. */
  lemma UtilityOfOneSet(items: seq<Item>, dimension: nat, g: Partition)
    requires ProperItems(items, dimension) && IsPartition(g, |items|) && |g| == 1
    ensures PartitionUtility(items, dimension, g) == 0.0
  {
    var ev, views := EvaluatorOf(items, dimension), Views(items, dimension, g);
    ViewsConsistent(items, dimension, g);
    JoinedMean(items, dimension, g);
    assert Front(views) == [] && Front(ItemLists(views)) == [];
    assert Flat(ItemLists(views)) == views[0].items;
    assert Energy(views) == Mass(views[0]);
    ContributionsOfPartition(items, dimension, g);
    SignOfTimes(|items|, Contributions(ev, views));
  }

  lemma TimesDifference(n: nat, a: real, b: real, w: real)
    requires n > 0 && Times(n, a) - Times(n, b) == w
    ensures a - b == w / n as real
  {
    TimesIsProduct(n, a);
    TimesIsProduct(n, b);
    DivideBy(n as real, a - b, w);
  }

  lemma DivideBy(n: real, d: real, w: real)
    requires n > 0.0 && n * d == w
    ensures d == w / n
  {}

  // The weighted distance of two sets of a partition.
  ghost function SetDistance(items: seq<Item>, dimension: nat, g: Partition, l: nat, r: nat): (w: real)
    requires ProperItems(items, dimension) && IsPartition(g, |items|) && l < r < |g|
    ensures w >= 0.0
  {
    ViewsConsistent(items, dimension, g);
    var x, y := Views(items, dimension, g)[l], Views(items, dimension, g)[r];
    WardNonNegative(|x.items|, x.features, |y.items|, y.features);
    WardDistance(|x.items|, x.features, |y.items|, y.features)
  }

  lemma MergeLowersContributions(items: seq<Item>, dimension: nat, g: Partition, l: nat, r: nat)
    requires ProperItems(items, dimension) && IsPartition(g, |items|) && l < r < |g|
    ensures IsPartition(MergeAt(g, l, r), |items|)
    ensures var ev := EvaluatorOf(items, dimension);
      Contributions(ev, Views(items, dimension, g)) - Contributions(ev, Views(items, dimension, MergeAt(g, l, r)))
        == SetDistance(items, dimension, g, l, r) / |items| as real
  {
    var m := MergeAt(g, l, r);
    ViewsMerged(items, dimension, g, l, r);
    MergeLosesEnergy(Views(items, dimension, g), l, r, Views(items, dimension, m), dimension);
    ContributionsOfPartition(items, dimension, g);
    ContributionsOfPartition(items, dimension, m);
    var ev := EvaluatorOf(items, dimension);
    TimesDifference(|items|, Contributions(ev, Views(items, dimension, g)),
                    Contributions(ev, Views(items, dimension, m)),
                    SetDistance(items, dimension, g, l, r));
  }

  /** A merge lowers the utility times the number of sets by exactly the weighted squared distance
      of the two merged sets' means, over the number of items. */
  lemma {:induction false} MergeLowersUtility(items: seq<Item>, dimension: nat, g: Partition, l: nat, r: nat)
    requires ProperItems(items, dimension) && IsPartition(g, |items|) && l < r < |g|
    ensures IsPartition(MergeAt(g, l, r), |items|)
    ensures Times(|g|, PartitionUtility(items, dimension, g))
              - Times(|MergeAt(g, l, r)|, PartitionUtility(items, dimension, MergeAt(g, l, r)))
         == SetDistance(items, dimension, g, l, r) / |items| as real
  {
    MergeLowersContributions(items, dimension, g, l, r);
    UtilityTimesSets(items, dimension, g);
    UtilityTimesSets(items, dimension, MergeAt(g, l, r));
  }

  lemma {:induction false} UtilityTimesSets(items: seq<Item>, dimension: nat, g: Partition)
    requires ProperItems(items, dimension) && IsPartition(g, |items|)
    ensures Times(|g|, PartitionUtility(items, dimension, g))
         == Contributions(EvaluatorOf(items, dimension), Views(items, dimension, g))
  {
    PartitionNonEmpty(g, |items|);
    TimesOfQuotient(|g|, Contributions(EvaluatorOf(items, dimension), Views(items, dimension, g)));
  }

  // --- Runs --------------------------------------------------------------------------------

  // Sets l and r are as similar as any two.
  ghost predicate Closest(similar: Measure, views: seq<View>, l: nat, r: nat)
  {
    && l < r < |views|
    && forall i, j :: 0 <= i < j < |views| ==>
         similar(views[i].features, views[j].features) <= similar(views[l].features, views[r].features)
  }

  ghost predicate Move(similar: Measure, items: seq<Item>, dimension: nat, g: Partition, g': Partition)
    requires ItemsOfDimension(items, dimension)
  {
    && IsPartition(g, |items|)
    && exists l: nat, r: nat ::
         Closest(similar, Views(items, dimension, g), l, r) && l < r < |g| && g' == MergeAt(g, l, r)
  }

  // The partitions of a run so far: the singletons, then one for each move.
  ghost predicate IsRun(similar: Measure, items: seq<Item>, dimension: nat, trace: seq<Partition>)
    requires ItemsOfDimension(items, dimension)
  {
    && |trace| > 0
    && if |trace| == 1 then Last(trace) == Singletons(|items|)
       else
         && IsRun(similar, items, dimension, Front(trace))
         && Move(similar, items, dimension, Last(Front(trace)), Last(trace))
  }

  lemma MovePartition(similar: Measure, items: seq<Item>, dimension: nat, g: Partition,
          g': Partition)
    requires ItemsOfDimension(items, dimension) && Move(similar, items, dimension, g, g')
    ensures IsPartition(g', |items|) && |g'| == |g| - 1
  {
    var l: nat, r: nat :| Closest(similar, Views(items, dimension, g), l, r) && l < r < |g| && g' == MergeAt(g, l, r);
    MergePartition(g, l, r, |items|);
  }

  /** Every reachable state is a partition of the added items, and each move removes one set; so
      a run from n items that ends with one set has taken exactly n - 1 moves. */
  lemma {:induction false} RunPartitions(similar: Measure, items: seq<Item>, dimension: nat, trace: seq<Partition>,
          t: nat)
    requires ItemsOfDimension(items, dimension) && IsRun(similar, items, dimension, trace) && t < |trace|
    ensures IsPartition(trace[t], |items|) && |trace[t]| == |items| - t
  {
    if |trace| == 1 {
      SingletonsPartition(|items|);
    } else if t < |trace| - 1 {
      RunPartitions(similar, items, dimension, Front(trace), t);
    } else {
      RunPartitions(similar, items, dimension, Front(trace), t - 1);
      MovePartition(similar, items, dimension, Front(trace)[t - 1], trace[t]);
    }
  }

  lemma {:induction false} RunAllPartitions(similar: Measure, items: seq<Item>, dimension: nat, trace: seq<Partition>)
    requires ItemsOfDimension(items, dimension) && IsRun(similar, items, dimension, trace)
    ensures AllPartitions(items, trace)
  {
    forall t | 0 <= t < |trace| ensures IsPartition(trace[t], |items|) {
      RunPartitions(similar, items, dimension, trace, t);
    }
  }

  ghost predicate AllPartitions(items: seq<Item>, trace: seq<Partition>) {
    forall t :: 0 <= t < |trace| ==> IsPartition(trace[t], |items|)
  }

  // Utility times number of sets, state by state.
  ghost function WeightedUtilities(items: seq<Item>, dimension: nat, trace: seq<Partition>): (ws: seq<real>)
    requires ProperItems(items, dimension) && AllPartitions(items, trace)
    ensures |ws| == |trace|
  {
    seq(|trace|, t requires 0 <= t < |trace| => Times(|trace[t]|, PartitionUtility(items, dimension, trace[t])))
  }

  lemma WeightsOfFront(items: seq<Item>, dimension: nat, trace: seq<Partition>)
    requires ProperItems(items, dimension) && AllPartitions(items, trace) && |trace| > 0
    ensures AllPartitions(items, Front(trace))
    ensures Front(WeightedUtilities(items, dimension, trace)) == WeightedUtilities(items, dimension, Front(trace))
  {}

  lemma {:induction false} LastMoveLowersUtility(similar: Measure, items: seq<Item>, dimension: nat,
          trace: seq<Partition>)
    requires ProperItems(items, dimension) && IsRun(similar, items, dimension, trace)
    requires AllPartitions(items, trace) && |trace| > 1
    ensures var ws := WeightedUtilities(items, dimension, trace); Last(ws) <= Last(Front(ws))
  {
    MoveLowersUtility(similar, items, dimension, Last(Front(trace)), Last(trace));
  }

  /** Along a run the utility times the number of sets never rises. */
  lemma {:induction false} RunLowersUtility(similar: Measure, items: seq<Item>, dimension: nat,
          trace: seq<Partition>, s: nat)
    requires ProperItems(items, dimension)
    requires IsRun(similar, items, dimension, trace) && s < |trace|
    ensures AllPartitions(items, trace)
    ensures Last(WeightedUtilities(items, dimension, trace)) <= WeightedUtilities(items, dimension, trace)[s]
  {
    RunAllPartitions(similar, items, dimension, trace);
    if s == |trace| - 1 {
    } else {
      LastMoveLowersUtility(similar, items, dimension, trace);
      RunLowersUtility(similar, items, dimension, Front(trace), s);
      WeightsOfFront(items, dimension, trace);
    }
  }

  lemma {:induction false} MoveLowersUtility(similar: Measure, items: seq<Item>, dimension: nat, g: Partition,
          g': Partition)
    requires ProperItems(items, dimension)
    requires Move(similar, items, dimension, g, g')
    ensures IsPartition(g', |items|)
    ensures Times(|g'|, PartitionUtility(items, dimension, g')) <= Times(|g|, PartitionUtility(items, dimension, g))
  {
    var l: nat, r: nat :| Closest(similar, Views(items, dimension, g), l, r) && l < r < |g| && g' == MergeAt(g, l, r);
    MergeLowersUtility(items, dimension, g, l, r);
    QuotientNonNegative(SetDistance(items, dimension, g, l, r), |items| as real);
  }

  // --- The best snapshot -------------------------------------------------------------------

  datatype Kept = Kept(maxCu: real, cached: seq<View>)

  // What the keeper holds after seeing one more list of sets.
  function Keep(k: Kept, ev: Evaluator, views: seq<View>): Kept
    requires ev.size > 0 && |views| > 0
  {
    if Utility(ev, views) < k.maxCu then k else Kept(Utility(ev, views), views)
  }

  // What the keeper holds after a run: only states after a move, of at most 20 sets, are seen.
  ghost function KeptAfter(similar: Measure, items: seq<Item>, dimension: nat, trace: seq<Partition>): Kept
    requires ProperItems(items, dimension) && IsRun(similar, items, dimension, trace)
  {
    if |trace| == 1 then Kept(INITIAL_MAX_CU, [])
    else
      var k := KeptAfter(similar, items, dimension, Front(trace));
      if |Last(trace)| > TRIGGER_SIZE then k
      else
        LastPartition(similar, items, dimension, trace);
        Keep(k, EvaluatorOf(items, dimension), Views(items, dimension, Last(trace)))
  }

  lemma {:induction false} LastPartition(similar: Measure, items: seq<Item>, dimension: nat, trace: seq<Partition>)
    requires ProperItems(items, dimension) && IsRun(similar, items, dimension, trace)
    ensures IsPartition(Last(trace), |items|) && |Last(trace)| > 0
  {
    RunPartitions(similar, items, dimension, trace, |trace| - 1);
    PartitionNonEmpty(Last(trace), |items|);
  }

  lemma {:induction false} RunStarts(similar: Measure, items: seq<Item>, dimension: nat)
    requires ProperItems(items, dimension)
    ensures IsRun(similar, items, dimension, [Singletons(|items|)])
    ensures KeptAfter(similar, items, dimension, [Singletons(|items|)]) == Kept(INITIAL_MAX_CU, [])
  {}

  lemma {:induction false} RunExtends(similar: Measure, items: seq<Item>, dimension: nat, trace: seq<Partition>,
          l: nat, r: nat)
    requires ProperItems(items, dimension)
    requires IsRun(similar, items, dimension, trace) && IsPartition(Last(trace), |items|)
    requires Closest(similar, Views(items, dimension, Last(trace)), l, r)
    ensures l < r < |Last(trace)|
    ensures var g := MergeAt(Last(trace), l, r);
      && IsPartition(g, |items|) && |g| > 0
      && IsRun(similar, items, dimension, trace + [g])
      && KeptAfter(similar, items, dimension, trace + [g])
           == (if |g| > TRIGGER_SIZE then KeptAfter(similar, items, dimension, trace)
               else Keep(KeptAfter(similar, items, dimension, trace), EvaluatorOf(items, dimension),
                         Views(items, dimension, g)))
  {
    var g := MergeAt(Last(trace), l, r);
    MergePartition(Last(trace), l, r, |items|);
    PartitionNonEmpty(g, |items|);
    assert Front(trace + [g]) == trace;
    assert Move(similar, items, dimension, Last(trace), g);
  }

  // State t is one the keeper looks at.
  ghost predicate Seen(trace: seq<Partition>, t: int) {
    1 <= t < |trace| && |trace[t]| <= TRIGGER_SIZE
  }

  ghost function Utilities(items: seq<Item>, dimension: nat, trace: seq<Partition>): (us: seq<real>)
    requires ProperItems(items, dimension) && AllPartitions(items, trace)
    ensures |us| == |trace|
  {
    seq(|trace|, t requires 0 <= t < |trace| => PartitionUtility(items, dimension, trace[t]))
  }

  // State b has the greatest utility of those seen, and is the latest that has.
  ghost predicate LatestBest(us: seq<real>, trace: seq<Partition>, b: int)
    requires |us| == |trace|
  {
    && Seen(trace, b)
    && (forall t :: Seen(trace, t) ==> us[t] <= us[b])
    && (forall t :: Seen(trace, t) && t > b ==> us[t] < us[b])
  }

  lemma LatestBestKept(us: seq<real>, trace: seq<Partition>, b: int)
    requires |us| == |trace| > 0 && LatestBest(Front(us), Front(trace), b)
    requires Seen(trace, |trace| - 1) ==> Last(us) < us[b]
    ensures LatestBest(us, trace, b)
  {
    forall t | Seen(trace, t) ensures us[t] <= us[b] && (t > b ==> us[t] < us[b]) {
      assert t < |trace| - 1 ==> Seen(Front(trace), t) && Front(us)[t] == us[t];
    }
  }

  lemma LatestBestReplaced(us: seq<real>, trace: seq<Partition>, b: int)
    requires |us| == |trace| > 0 && Seen(trace, |trace| - 1)
    requires LatestBest(Front(us), Front(trace), b) || forall t :: !Seen(Front(trace), t)
    requires LatestBest(Front(us), Front(trace), b) ==> us[b] <= Last(us)
    ensures LatestBest(us, trace, |trace| - 1)
  {
    forall t | Seen(trace, t) ensures us[t] <= Last(us) {
      if t < |trace| - 1 {
        assert Seen(Front(trace), t) && Front(us)[t] == us[t];
      }
    }
  }

  // The keeper holds state b, or its initial values when b is negative.
  ghost predicate Holds(k: Kept, items: seq<Item>, dimension: nat, trace: seq<Partition>, b: int)
    requires ProperItems(items, dimension) && AllPartitions(items, trace)
  {
    if b < 0 then k == Kept(INITIAL_MAX_CU, []) && forall t :: !Seen(trace, t)
    else
      && LatestBest(Utilities(items, dimension, trace), trace, b)
      && k.maxCu == Utilities(items, dimension, trace)[b] && k.cached == Views(items, dimension, trace[b])
  }

  /** After any run the keeper holds the latest state of greatest utility among the states seen,
      with that utility; and its initial values when none was seen. */
  lemma {:induction false} KeeperHoldsLatestBest(similar: Measure, items: seq<Item>, dimension: nat,
          trace: seq<Partition>) returns (b: int)
    requires ProperItems(items, dimension) && IsRun(similar, items, dimension, trace)
    ensures AllPartitions(items, trace)
    ensures Holds(KeptAfter(similar, items, dimension, trace), items, dimension, trace, b)
  {
    RunAllPartitions(similar, items, dimension, trace);
    if |trace| == 1 {
      b := -1;
    } else {
      b := KeeperHoldsLatestBest(similar, items, dimension, Front(trace));
      var k, k' := KeptAfter(similar, items, dimension, Front(trace)), KeptAfter(similar, items, dimension, trace);
      if !Seen(trace, |trace| - 1) {
        StillHolds(k, items, dimension, trace, b);
      } else {
        LastPartition(similar, items, dimension, trace);
        b := HoldsNext(k, k', items, dimension, trace, b);
      }
    }
  }

  lemma StillHolds(k: Kept, items: seq<Item>, dimension: nat, trace: seq<Partition>, b: int)
    requires ProperItems(items, dimension) && AllPartitions(items, trace) && |trace| > 1
    requires AllPartitions(items, Front(trace)) && Holds(k, items, dimension, Front(trace), b)
    requires Seen(trace, |trace| - 1) && b >= 0 ==> Last(Utilities(items, dimension, trace)) < k.maxCu
    requires Seen(trace, |trace| - 1) ==> b >= 0
    ensures Holds(k, items, dimension, trace, b)
  {
    var us := Utilities(items, dimension, trace);
    assert Utilities(items, dimension, Front(trace)) == Front(us);
    if b >= 0 {
      LatestBestKept(us, trace, b);
    } else {
      assert forall t :: Seen(trace, t) ==> Seen(Front(trace), t);
    }
  }

  lemma HoldsNext(k: Kept, k': Kept, items: seq<Item>, dimension: nat, trace: seq<Partition>,
          b: int) returns (b': int)
    requires ProperItems(items, dimension) && AllPartitions(items, trace) && |trace| > 1
    requires AllPartitions(items, Front(trace)) && Holds(k, items, dimension, Front(trace), b)
    requires Seen(trace, |trace| - 1) && |Last(trace)| > 0
    requires k' == Keep(k, EvaluatorOf(items, dimension), Views(items, dimension, Last(trace)))
    ensures Holds(k', items, dimension, trace, b')
  {
    var us := Utilities(items, dimension, trace);
    assert Utilities(items, dimension, Front(trace)) == Front(us);
    UtilityNonNegative(items, dimension, Last(trace));
    if b >= 0 && Last(us) < k.maxCu {
      StillHolds(k, items, dimension, trace, b);
      b' := b;
    } else {
      LatestBestReplaced(us, trace, b);
      b' := |trace| - 1;
    }
  }

  // --- Dropping small sets -----------------------------------------------------------------

  // The sets holding at least a tenth of the items, in order.
  function Large(views: seq<View>, total: nat): seq<View> {
    if |views| == 0 then []
    else Large(Front(views), total) + if 10 * |Last(views).items| >= total then [Last(views)] else []
  }

  // These are the positions of the views that hold at least a tenth.
  ghost predicate LargePositions(views: seq<View>, total: nat, at: seq<nat>) {
    forall k: nat :: k in at <==> k < |views| && 10 * |views[k].items| >= total
  }

  lemma {:induction false} LargePicks(views: seq<View>, total: nat) returns (at: seq<nat>)
    ensures PicksAt(Large(views, total), views, at) && LargePositions(views, total, at)
  {
    if |views| == 0 {
      at := [];
    } else {
      at := LargePicks(Front(views), total);
      FrontLast(views);
      PicksNext(Large(Front(views), total), Front(views), at, Last(views));
      if 10 * |Last(views).items| >= total {
        at := at + [|views| - 1];
      }
    }
  }

  lemma {:induction false} LargeTimesTotal(views: seq<View>, total: nat)
    ensures |Large(views, total)| * total <= 10 * ItemCount(views)
  {
    if |views| == 0 {
    } else {
      LargeTimesTotal(Front(views), total);
      OneMore(|Large(Front(views), total)|, total);
    }
  }

  lemma {:induction false} NoneLarge(views: seq<View>, total: nat)
    requires Large(views, total) == []
    ensures 10 * ItemCount(views) + |views| <= |views| * total
  {
    if |views| == 0 {
    } else {
      NoneLarge(Front(views), total);
      OneMore(|views| - 1, total);
    }
  }

  lemma AtMostTen(n: nat, total: nat)
    requires total > 0 && n * total <= 10 * total
    ensures n <= 10
  {}

  lemma FewSets(n: nat, total: nat)
    requires n <= 10
    ensures n * total <= 10 * total
  {}

  /** Of a list of sets, at most ten hold a tenth of the items; and if there are at most ten
      sets, at least one does. */
  lemma {:induction false} LargeBounds(views: seq<View>)
    requires ItemCount(views) > 0
    ensures |Large(views, ItemCount(views))| <= 10
    ensures 0 < |views| <= 10 ==> |Large(views, ItemCount(views))| > 0
  {
    var total := ItemCount(views);
    LargeTimesTotal(views, total);
    AtMostTen(|Large(views, total)|, total);
    if |Large(views, total)| == 0 && 0 < |views| <= 10 {
      NoneLarge(views, total);
      FewSets(|views|, total);
    }
  }

  // --- Complete runs -----------------------------------------------------------------------

  /** A run down to one set, from at least two items: its last state has utility 0; the keeper
      holds, with the greatest utility of all states of at most 20 sets after a move, the latest
      state that has it; that state holds every item; and between none and ten of its sets are
      large, at least one if it has at most ten sets. */
  lemma CompleteRun(similar: Measure, items: seq<Item>, dimension: nat,
          trace: seq<Partition>) returns (b: int)
    requires ProperItems(items, dimension) && IsRun(similar, items, dimension, trace)
    requires |trace| == |items| >= 2
    ensures AllPartitions(items, trace) && |Last(trace)| == 1
    ensures PartitionUtility(items, dimension, Last(trace)) == 0.0
    ensures Seen(trace, b)
    ensures var us, kept := Utilities(items, dimension, trace), KeptAfter(similar, items, dimension, trace);
      && kept.maxCu == us[b] && kept.cached == Views(items, dimension, trace[b])
      && (forall t :: Seen(trace, t) ==> us[t] <= us[b]) && (forall t :: Seen(trace, t) && t > b ==> us[t] < us[b])
      && ItemCount(kept.cached) == |items|
      && |Large(kept.cached, |items|)| <= 10
      && (|kept.cached| <= 10 ==> |Large(kept.cached, |items|)| >= 1)
  {
    RunAllPartitions(similar, items, dimension, trace);
    RunPartitions(similar, items, dimension, trace, |trace| - 1);
    UtilityOfOneSet(items, dimension, Last(trace));
    b := KeeperHoldsLatestBest(similar, items, dimension, trace);
    assert Seen(trace, |trace| - 1);
    PartitionNonEmpty(trace[b], |items|);
    ViewsConsistent(items, dimension, trace[b]);
    LargeBounds(Views(items, dimension, trace[b]));
  }

  /** A single item is never shown to the keeper, so the results are empty. */
  lemma {:induction false} SingleItemRun(similar: Measure, items: seq<Item>, dimension: nat, trace: seq<Partition>)
    requires ProperItems(items, dimension) && IsRun(similar, items, dimension, trace)
    requires |items| == 1
    ensures |trace| == 1
    ensures var kept := KeptAfter(similar, items, dimension, trace).cached; Large(kept, ItemCount(kept)) == []
  {
    RunPartitions(similar, items, dimension, trace, |trace| - 1);
    PartitionNonEmpty(trace[|trace| - 1], |items|);
  }
}
