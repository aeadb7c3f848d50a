/** The category utility of a list of item sets, and why it is never negative. */
module CategoryUtility {
  import opened ItemSets
  import opened Partitions
  import opened Sequences
  import opened Sums
  import opened Vectors

  // The evaluator's state after Init.
  datatype Evaluator = Evaluator(size: nat, sumOfSquares: real)

  // One set's contribution.
  function Contribution(ev: Evaluator, v: View): real
    requires ev.size > 0
  {
    (|v.items| as real / ev.size as real) * (SumOfSquares(v.features) - ev.sumOfSquares)
  }

  function Contributions(ev: Evaluator, views: seq<View>): real
    requires ev.size > 0
  {
    if |views| == 0 then 0.0 else Contributions(ev, Front(views)) + Contribution(ev, Last(views))
  }

  function Utility(ev: Evaluator, views: seq<View>): real
    requires ev.size > 0 && |views| > 0
  {
    Contributions(ev, views) / |views| as real
  }

  // The values of a list of item sets.
  ghost function Values(itemSets: seq<ItemSet>): (views: seq<View>)
    reads itemSets
    ensures |views| == |itemSets|
    ensures forall k :: 0 <= k < |itemSets| ==> views[k] == itemSets[k].Value()
  {
    seq(|itemSets|, k requires 0 <= k < |itemSets| reads itemSets => itemSets[k].Value())
  }

  method Evaluate(ev: Evaluator, itemSets: seq<ItemSet>) returns (utility: real)
    requires ev.size > 0 && |itemSets| > 0
    ensures utility == Utility(ev, Values(itemSets))
  {
    utility := 0.0;
    for k := 0 to |itemSets|
      invariant utility == Contributions(ev, Values(itemSets)[..k])
    {
      assert Front(Values(itemSets)[..k + 1]) == Values(itemSets)[..k];
      var weight := |itemSets[k].items| as real / ev.size as real;
      var sq := CalculateSumOfSquares(itemSets[k].features);
      utility := utility + weight * (sq - ev.sumOfSquares);
    }
    assert Values(itemSets)[..|itemSets|] == Values(itemSets);
    utility := utility / |itemSets| as real;
  }

  // --- Energy: the item-weighted squares of the means --------------------------------------

  function Mass(v: View): real {
    Times(|v.items|, SumOfSquares(v.features))
  }

  function Energy(views: seq<View>): real {
    if |views| == 0 then 0.0 else Energy(Front(views)) + Mass(Last(views))
  }

  function ItemCount(views: seq<View>): nat {
    if |views| == 0 then 0 else ItemCount(Front(views)) + |Last(views).items|
  }

  lemma ContributionAsMass(ev: Evaluator, v: View)
    requires ev.size > 0
    ensures Times(ev.size, Contribution(ev, v)) == Mass(v) - Times(|v.items|, ev.sumOfSquares)
  {
    TimesIsProduct(ev.size, Contribution(ev, v));
    TimesIsProduct(|v.items|, SumOfSquares(v.features));
    TimesIsProduct(|v.items|, ev.sumOfSquares);
    WeightTimesSize(|v.items| as real, ev.size as real, SumOfSquares(v.features), ev.sumOfSquares);
  }

  lemma WeightTimesSize(p: real, n: real, a: real, s: real)
    requires n > 0.0
    ensures n * ((p / n) * (a - s)) == p * a - p * s
  {
    TimesQuotient(p, n);
    assert n * ((p / n) * (a - s)) == (n * (p / n)) * (a - s);
  }

  lemma {:induction false} ContributionsAsEnergy(ev: Evaluator, views: seq<View>)
    requires ev.size > 0
    ensures Times(ev.size, Contributions(ev, views)) == Energy(views) - Times(ItemCount(views), ev.sumOfSquares)
  {
    if |views| == 0 {
      TimesIsProduct(ev.size, 0.0);
    } else {
      ContributionsAsEnergy(ev, Front(views));
      ContributionAsMass(ev, Last(views));
      TimesSum(ev.size, Contributions(ev, Front(views)), Contribution(ev, Last(views)));
      TimesMore(ItemCount(Front(views)), |Last(views).items|, ev.sumOfSquares);
    }
  }

  // Every set is nonempty and has the exact mean of its items' features.
  ghost predicate Consistent(views: seq<View>, dimension: nat) {
    forall k :: 0 <= k < |views| ==>
      && |views[k].items| > 0
      && OfDimension(FeaturesOf(views[k].items), dimension)
      && views[k].features == Mean(FeaturesOf(views[k].items), dimension)
  }

  lemma FeaturesConcat(a: seq<Item>, b: seq<Item>)
    ensures FeaturesOf(a + b) == FeaturesOf(a) + FeaturesOf(b)
  {}

  /** The energy of any list of sets is at least that of all their items in one set. */
  lemma {:induction false} EnergyAtLeastJoined(views: seq<View>, dimension: nat)
    requires |views| > 0 && Consistent(views, dimension)
    ensures var all := FeaturesOf(Flat(ItemLists(views)));
      && |all| == ItemCount(views) > 0 && OfDimension(all, dimension)
      && Times(ItemCount(views), SumOfSquares(Mean(all, dimension))) <= Energy(views)
  {
    var front, v := Front(views), Last(views);
    assert Front(ItemLists(views)) == ItemLists(front);
    if |front| == 0 {
      assert Flat(ItemLists(views)) == v.items;
    } else {
      EnergyAtLeastJoined(front, dimension);
      JoinOneMore(Flat(ItemLists(front)), v, Energy(front), dimension);
    }
  }

  lemma {:induction false} JoinOneMore(before: seq<Item>, v: View, energy: real, dimension: nat)
    requires |before| > 0 && OfDimension(FeaturesOf(before), dimension) && Consistent([v], dimension)
    requires Times(|before|, SumOfSquares(Mean(FeaturesOf(before), dimension))) <= energy
    ensures var all := FeaturesOf(before + v.items);
      && OfDimension(all, dimension)
      && Times(|before| + |v.items|, SumOfSquares(Mean(all, dimension))) <= energy + Mass(v)
  {
    assert [v][0] == v;
    FeaturesConcat(before, v.items);
    MeanConcat(FeaturesOf(before), FeaturesOf(v.items), dimension);
    WardIdentity(|before|, Mean(FeaturesOf(before), dimension), |v.items|, v.features);
    WardNonNegative(|before|, Mean(FeaturesOf(before), dimension), |v.items|, v.features);
  }

  lemma {:induction false} ItemCountIsFlat(views: seq<View>)
    ensures ItemCount(views) == |Flat(ItemLists(views))|
  {
    if |views| == 0 {
    } else {
      ItemCountIsFlat(Front(views));
      assert Front(ItemLists(views)) == ItemLists(Front(views));
    }
  }

  // --- Merging two sets --------------------------------------------------------------------

  lemma {:induction false} EnergyConcat(u: seq<View>, v: seq<View>)
    ensures Energy(u + v) == Energy(u) + Energy(v)
  {
    if |v| == 0 {
      assert u + v == u;
    } else {
      EnergyConcat(u, Front(v));
      assert Front(u + v) == u + Front(v);
    }
  }

  lemma EnergyOne(v: View)
    ensures Energy([v]) == Mass(v)
  {
    assert Front([v]) == [];
  }

  lemma EnergyFive(a: seq<View>, x: View, b: seq<View>, y: View, c: seq<View>)
    ensures Energy(a + [x] + (b + [y] + c)) == Energy(a) + Energy([x]) + Energy(b) + Energy([y]) + Energy(c)
  {
    EnergyConcat(a + [x], b + [y] + c);
    EnergyConcat(a, [x]);
    EnergyConcat(b + [y], c);
    EnergyConcat(b, [y]);
  }

  lemma EnergyFour(a: seq<View>, x: View, b: seq<View>, c: seq<View>)
    ensures Energy(a + [x] + (b + c)) == Energy(a) + Energy([x]) + Energy(b) + Energy(c)
  {
    EnergyConcat(a + [x], b + c);
    EnergyConcat(a, [x]);
    EnergyConcat(b, c);
  }

  // views' is views with sets l and r replaced, at l, by their union with its exact mean.
  ghost predicate Merged(views: seq<View>, l: nat, r: nat, views': seq<View>, dimension: nat)
    requires Consistent(views, dimension) && l < r < |views|
  {
    && |views'| == |views| - 1
    && (forall k :: 0 <= k < |views'| && k != l ==> views'[k] == views[if k < r then k else k + 1])
    && views'[l].items == views[l].items + views[r].items
    && views'[l].features == Combine(|views[l].items|, views[l].features, |views[r].items|, views[r].features)
  }

  lemma MergedParts(views: seq<View>, l: nat, r: nat, views': seq<View>, dimension: nat)
    requires Consistent(views, dimension) && l < r < |views| && Merged(views, l, r, views', dimension)
    ensures views[..l] + [views[l]] + (views[l + 1..r] + [views[r]] + views[r + 1..]) == views
    ensures views[..l] + [views'[l]] + (views[l + 1..r] + views[r + 1..]) == views'
  {}

  // Before the merge, the energy is that of the two sets and the rest; after it, of their union and
  // the rest.
  lemma EnergySplit(views: seq<View>, l: nat, r: nat, views': seq<View>,
          dimension: nat) returns (rest: real)
    requires Consistent(views, dimension) && l < r < |views| && Merged(views, l, r, views', dimension)
    ensures Energy(views) == rest + Mass(views[l]) + Mass(views[r])
    ensures Energy(views') == rest + Mass(views'[l])
  {
    MergedParts(views, l, r, views', dimension);
    EnergyFive(views[..l], views[l], views[l + 1..r], views[r], views[r + 1..]);
    EnergyFour(views[..l], views'[l], views[l + 1..r], views[r + 1..]);
    EnergyOne(views[l]);
    EnergyOne(views[r]);
    EnergyOne(views'[l]);
    rest := Energy(views[..l]) + Energy(views[l + 1..r]) + Energy(views[r + 1..]);
  }

  /** A merge lowers the energy by exactly the Ward distance of the two sets. */
  lemma {:induction false} MergeLosesEnergy(views: seq<View>, l: nat, r: nat, views': seq<View>, dimension: nat)
    requires Consistent(views, dimension) && l < r < |views| && Merged(views, l, r, views', dimension)
    ensures Energy(views) - Energy(views')
         == WardDistance(|views[l].items|, views[l].features, |views[r].items|, views[r].features)
  {
    var rest := EnergySplit(views, l, r, views', dimension);
    WardIdentity(|views[l].items|, views[l].features, |views[r].items|, views[r].features);
  }
}
