/** Items with features, and the mutable item sets that clustering merges. */
module ItemSets {
  import opened Sequences
  import opened Vectors

  datatype Item = Item(id: int, features: Features)

  // The value of an item set at one moment.
  datatype View = View(id: int, features: Features, items: seq<Item>)

  function FeaturesOf(items: seq<Item>): (fs: seq<Features>)
    ensures |fs| == |items|
  {
    seq(|items|, i requires 0 <= i < |items| => items[i].features)
  }

  ghost predicate ItemsOfDimension(items: seq<Item>, dimension: nat) {
    forall k :: 0 <= k < |items| ==> |items[k].features| == dimension
  }

  // A bit vector as features: 1 for a held feature, 0 for one not held.
  method AdaptBitset(id: int, message: seq<bool>) returns (item: Item)
    ensures item.id == id && |item.features| == |message|
    ensures forall i :: 0 <= i < |message| ==> item.features[i] == if message[i] then 1.0 else 0.0
    ensures NonNegative(item.features)
    ensures SumOfSquares(item.features) > 0.0 <==> true in message
  {
    var features: Features := [];
    for index := 0 to |message|
      invariant |features| == index
      invariant forall i :: 0 <= i < index ==> features[i] == if message[i] then 1.0 else 0.0
      invariant SumOfSquares(features) >= 0.0
      invariant SumOfSquares(features) > 0.0 <==> true in message[..index]
    {
      assert message[..index + 1] == message[..index] + [message[index]];
      var f := if message[index] then 1.0 else 0.0;
      assert Front(features + [f]) == features;
      features := features + [f];
    }
    assert message[..|message|] == message;
    item := Item(id, features);
  }

  class ItemSet {
    var id: int
    var features: Features
    var items: seq<Item>

    ghost function Value(): View
      reads this
    {
      View(id, features, items)
    }

    constructor OfItem(item: Item)
      ensures features == item.features && items == [item]
    {
      features, items := item.features, [item];
    }

    constructor Empty()
      ensures items == []
    {
      items := [];
    }

    method SetId(id: int)
      modifies this`id
      ensures this.id == id
    {
      this.id := id;
    }

    method SetFeatures(features: Features)
      modifies this`features
      ensures this.features == features
    {
      this.features := features;
    }

    method AddItem(item: Item)
      modifies this`items
      ensures items == old(items) + [item]
    {
      items := items + [item];
    }

    method Similarity(sqrt: real -> real, other: ItemSet) returns (r: real)
      requires IsSquareRoot(sqrt)
      ensures r == Cosine(sqrt, features, other.features)
    {
      r := EvaluateCosine(sqrt, features, other.features);
    }

    method UpdateMeanFeatures()
      requires |items| > 0 && ItemsOfDimension(items, |features|)
      modifies this`features
      ensures features == Mean(FeaturesOf(items), |old(features)|)
    {
      var mean := CalculateMean(FeaturesOf(items), |features|);
      SetFeatures(mean);
    }

    method Merge(other: ItemSet)
      requires |items| + |other.items| > 0
      requires ItemsOfDimension(items, |features|) && ItemsOfDimension(other.items, |features|)
      modifies this
      ensures id == old(id) && items == old(items) + old(other.items)
      ensures features == Mean(FeaturesOf(items), |old(features)|)
    {
      var otherItems := other.items;
      for k := 0 to |otherItems|
        invariant id == old(id) && features == old(features)
        invariant items == old(items) + otherItems[..k]
      {
        AddItem(otherItems[k]);
      }
      assert otherItems[..|otherItems|] == otherItems;
      UpdateMeanFeatures();
    }
  }
}
