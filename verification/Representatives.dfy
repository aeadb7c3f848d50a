/** The representative items of an item set: those most similar to it and least similar to the
    other sets. */
module Representatives {
  import opened ItemSets
  import opened Sequences
  import Sorting
  import opened Sums
  import opened Vectors

  // An item with its evaluation.
  type Scored = (real, Item)

  // --- The evaluation ----------------------------------------------------------------------

  function TotalItems(itemSets: seq<ItemSet>): nat
    reads itemSets
  {
    if |itemSets| == 0 then 0 else TotalItems(Front(itemSets)) + |Last(itemSets).items|
  }

  // How far an item is from one other set, weighted by its size.
  function Apart(sqrt: real -> real, other: ItemSet, item: Item, total: nat): real
    requires IsSquareRoot(sqrt) && total > 0
    reads other
  {
    (|other.items| as real / total as real) * (1.0 - Cosine(sqrt, other.features, item.features))
  }

  // How far an item is from all other sets. A weight of 0/0 items would be no number.
  function Dissimilarity(sqrt: real -> real, itemSets: seq<ItemSet>, itemSet: ItemSet, item: Item, total: nat): real
    requires IsSquareRoot(sqrt) && (total > 0 || |itemSets| == 0)
    reads itemSets
  {
    if |itemSets| == 0 then 0.0
    else
      var other := Last(itemSets);
      Dissimilarity(sqrt, Front(itemSets), itemSet, item, total)
      + if other == itemSet then 0.0 else Apart(sqrt, other, item, total)
  }

  function Evaluation(sqrt: real -> real, itemSets: seq<ItemSet>, itemSet: ItemSet, item: Item, total: nat): real
    requires IsSquareRoot(sqrt) && (total > 0 || |itemSets| == 0)
    reads itemSets, itemSet
  {
    Cosine(sqrt, itemSet.features, item.features) + Dissimilarity(sqrt, itemSets, itemSet, item, total)
  }

  lemma {:induction false} TotalAtLeast(itemSets: seq<ItemSet>, itemSet: ItemSet)
    requires itemSet in itemSets
    ensures TotalItems(itemSets) >= |itemSet.items|
  {
    if Last(itemSets) == itemSet {
    } else {
      assert itemSet in Front(itemSets);
      TotalAtLeast(Front(itemSets), itemSet);
    }
  }

  // One set adds between nothing and its weight.
  lemma ApartBounds(sqrt: real -> real, other: ItemSet, item: Item, total: nat)
    requires IsSquareRoot(sqrt) && total > 0 && NonNegative(item.features) && NonNegative(other.features)
    ensures 0.0 <= Apart(sqrt, other, item, total)
    ensures Times(total, Apart(sqrt, other, item, total)) <= |other.items| as real
  {
    CosineBounds(sqrt, other.features, item.features);
    WeightedShare(|other.items|, total, Cosine(sqrt, other.features, item.features), Apart(sqrt, other, item, total));
  }

  lemma WeightedShare(n: nat, total: nat, c: real, d: real)
    requires total > 0 && 0.0 <= c <= 1.0 && d == (n as real / total as real) * (1.0 - c)
    ensures 0.0 <= d && Times(total, d) <= n as real
  {
    TimesIsProduct(total, d);
    QuotientNonNegative(n as real, total as real);
    TimesQuotient(n as real, total as real);
    Scaled(n as real / total as real, 1.0 - c, total as real, n as real, d);
  }

  lemma Scaled(w: real, f: real, t: real, n: real, d: real)
    requires w >= 0.0 && 0.0 <= f <= 1.0 && t * w == n && n >= 0.0 && d == w * f
    ensures d >= 0.0 && t * d <= n
  {
    assert t * d == n * f;
  }

  lemma {:induction false} DissimilarityBounds(sqrt: real -> real, itemSets: seq<ItemSet>, itemSet: ItemSet,
          item: Item, total: nat)
    requires IsSquareRoot(sqrt) && total > 0 && NonNegative(item.features)
    requires forall s :: s in itemSets ==> NonNegative(s.features)
    ensures Dissimilarity(sqrt, itemSets, itemSet, item, total) >= 0.0
    ensures Times(total, Dissimilarity(sqrt, itemSets, itemSet, item, total)) <= TotalItems(itemSets) as real
  {
    if |itemSets| == 0 {
      TimesIsProduct(total, 0.0);
    } else {
      var other, before := Last(itemSets), Dissimilarity(sqrt, Front(itemSets), itemSet, item, total);
      DissimilarityBounds(sqrt, Front(itemSets), itemSet, item, total);
      if other != itemSet {
        ApartBounds(sqrt, other, item, total);
        TimesSum(total, before, Apart(sqrt, other, item, total));
      }
      assert TotalItems(itemSets) as real == TotalItems(Front(itemSets)) as real + |other.items| as real;
    }
  }

  lemma AtMostOne(t: real, d: real, p: real)
    requires t > 0.0 && p == t * d && p <= t
    ensures d <= 1.0
  {}

  /** On vectors without negative coordinates every evaluation lies between 0 and 2. */
  lemma {:induction false} EvaluationBounds(sqrt: real -> real, itemSets: seq<ItemSet>, itemSet: ItemSet, item: Item)
    requires IsSquareRoot(sqrt) && TotalItems(itemSets) > 0
    requires NonNegative(item.features) && NonNegative(itemSet.features)
    requires forall s :: s in itemSets ==> NonNegative(s.features)
    ensures 0.0 <= Evaluation(sqrt, itemSets, itemSet, item, TotalItems(itemSets)) <= 2.0
  {
    hide Cosine, Dissimilarity, TotalItems, NonNegative;
    var total := TotalItems(itemSets);
    CosineBounds(sqrt, itemSet.features, item.features);
    DissimilarityBounds(sqrt, itemSets, itemSet, item, total);
    var d := Dissimilarity(sqrt, itemSets, itemSet, item, total);
    TimesIsProduct(total, d);
    AtMostOne(total as real, d, Times(total, d));
  }

  // --- What the evaluation means -----------------------------------------------------------

  // The items of every set.
  ghost function ItemsIn(itemSets: seq<ItemSet>): (lists: seq<seq<Item>>)
    reads itemSets
    ensures |lists| == |itemSets|
  {
    seq(|itemSets|, k requires 0 <= k < |itemSets| reads itemSets => itemSets[k].items)
  }

  lemma {:induction false} TotalIsAll(itemSets: seq<ItemSet>)
    ensures TotalItems(itemSets) == |Flat(ItemsIn(itemSets))|
  {
    if |itemSets| == 0 {
    } else {
      TotalIsAll(Front(itemSets));
      assert Front(ItemsIn(itemSets)) == ItemsIn(Front(itemSets));
    }
  }

  // How many items the other sets have.
  ghost function OtherItems(itemSets: seq<ItemSet>, itemSet: ItemSet): nat
    reads itemSets
  {
    if |itemSets| == 0 then 0
    else OtherItems(Front(itemSets), itemSet) + if Last(itemSets) == itemSet then 0 else |Last(itemSets).items|
  }

  // The cosines to the other sets, once for each of their items.
  ghost function OtherCosines(sqrt: real -> real, itemSets: seq<ItemSet>, itemSet: ItemSet, item: Item): real
    requires IsSquareRoot(sqrt)
    reads itemSets
  {
    if |itemSets| == 0 then 0.0
    else
      var other := Last(itemSets);
      OtherCosines(sqrt, Front(itemSets), itemSet, item)
      + if other == itemSet then 0.0 else Times(|other.items|, Cosine(sqrt, other.features, item.features))
  }

  lemma ApartLaw(n: nat, total: nat, w: real, c: real, d: real)
    requires total as real * w == n as real && d == w * (1.0 - c)
    ensures Times(total, d) + Times(n, c) == n as real
  {
    TimesIsProduct(total, d);
    TimesIsProduct(n, c);
    Unweighted(w, c, total as real, n as real, d);
  }

  lemma Unweighted(w: real, c: real, t: real, n: real, d: real)
    requires t * w == n && d == w * (1.0 - c)
    ensures t * d + n * c == n
  {
    var f := 1.0 - c;
    assert t * (w * f) == (t * w) * f;
    assert n * f == n - n * c;
  }

  lemma {:induction false} DissimilarityLaw(sqrt: real -> real, itemSets: seq<ItemSet>, itemSet: ItemSet, item: Item,
          total: nat)
    requires IsSquareRoot(sqrt) && total > 0
    ensures Times(total, Dissimilarity(sqrt, itemSets, itemSet, item, total))
              + OtherCosines(sqrt, itemSets, itemSet, item) == OtherItems(itemSets, itemSet) as real
  {
    if |itemSets| == 0 {
      TimesIsProduct(total, 0.0);
    } else {
      var other, before := Last(itemSets), Dissimilarity(sqrt, Front(itemSets), itemSet, item, total);
      DissimilarityLaw(sqrt, Front(itemSets), itemSet, item, total);
      if other != itemSet {
        var apart := Apart(sqrt, other, item, total);
        TimesQuotient(|other.items| as real, total as real);
        ApartLaw(|other.items|, total, |other.items| as real / total as real,
                 Cosine(sqrt, other.features, item.features), apart);
        TimesSum(total, before, apart);
      }
    }
  }

  /** The score, weighted by all items, and the cosines to the other sets, weighted by theirs, make up
      the weighted cosine to the own set and the number of items of the others. */
  lemma {:induction false} EvaluationLaw(sqrt: real -> real, itemSets: seq<ItemSet>, itemSet: ItemSet, item: Item)
    requires IsSquareRoot(sqrt) && TotalItems(itemSets) > 0
    ensures TotalItems(itemSets) == |Flat(ItemsIn(itemSets))|
    ensures var total := TotalItems(itemSets);
      Times(total, Evaluation(sqrt, itemSets, itemSet, item, total)) + OtherCosines(sqrt, itemSets, itemSet, item)
        == Times(total, Cosine(sqrt, itemSet.features, item.features)) + OtherItems(itemSets, itemSet) as real
  {
    hide Cosine, Dissimilarity, OtherCosines, OtherItems, TotalItems;
    TotalIsAll(itemSets);
    var total := TotalItems(itemSets);
    DissimilarityLaw(sqrt, itemSets, itemSet, item, total);
    TimesSum(total, Cosine(sqrt, itemSet.features, item.features),
             Dissimilarity(sqrt, itemSets, itemSet, item, total));
  }

  // Item a is at least as similar to its set as item b, and no more similar to any other set.
  ghost predicate NoWorse(sqrt: real -> real, itemSets: seq<ItemSet>, itemSet: ItemSet, a: Item, b: Item)
    requires IsSquareRoot(sqrt)
    reads itemSets, itemSet
  {
    && Cosine(sqrt, itemSet.features, b.features) <= Cosine(sqrt, itemSet.features, a.features)
    && forall s :: s in itemSets && s != itemSet ==>
         Cosine(sqrt, s.features, a.features) <= Cosine(sqrt, s.features, b.features)
  }

  // And it is more similar to its set, or less to some other set that has items.
  ghost predicate Better(sqrt: real -> real, itemSets: seq<ItemSet>, itemSet: ItemSet, a: Item, b: Item)
    requires IsSquareRoot(sqrt)
    reads itemSets, itemSet
  {
    && NoWorse(sqrt, itemSets, itemSet, a, b)
    && (Cosine(sqrt, itemSet.features, b.features) < Cosine(sqrt, itemSet.features, a.features)
        || exists s :: s in itemSets && s != itemSet && |s.items| > 0
             && Cosine(sqrt, s.features, a.features) < Cosine(sqrt, s.features, b.features))
  }

  lemma ApartOrder(n: nat, total: nat, c: real, d: real)
    requires total > 0 && c <= d
    ensures (n as real / total as real) * (1.0 - d) <= (n as real / total as real) * (1.0 - c)
    ensures n > 0 && c < d ==> (n as real / total as real) * (1.0 - d) < (n as real / total as real) * (1.0 - c)
  {
    QuotientNonNegative(n as real, total as real);
    TimesQuotient(n as real, total as real);
    WeightedOrder(n as real / total as real, 1.0 - d, 1.0 - c);
  }

  lemma WeightedOrder(w: real, a: real, b: real)
    requires w >= 0.0 && a <= b
    ensures w * a <= w * b
    ensures w > 0.0 && a < b ==> w * a < w * b
  {
    assert w * (b - a) >= 0.0;
    if w > 0.0 && a < b {
      PositiveProduct(w, b - a);
    }
  }

  lemma ApartCompared(sqrt: real -> real, other: ItemSet, a: Item, b: Item, total: nat)
    requires IsSquareRoot(sqrt) && total > 0
    requires Cosine(sqrt, other.features, a.features) <= Cosine(sqrt, other.features, b.features)
    ensures Apart(sqrt, other, a, total) >= Apart(sqrt, other, b, total)
    ensures |other.items| > 0 && Cosine(sqrt, other.features, a.features) < Cosine(sqrt, other.features, b.features) ==>
      Apart(sqrt, other, a, total) > Apart(sqrt, other, b, total)
  {
    hide Cosine, IsSquareRoot;
    ApartOrder(|other.items|, total, Cosine(sqrt, other.features, a.features),
               Cosine(sqrt, other.features, b.features));
  }

  lemma {:induction false} DissimilarityOrder(sqrt: real -> real, itemSets: seq<ItemSet>, itemSet: ItemSet,
          a: Item, b: Item, total: nat)
    requires IsSquareRoot(sqrt) && (total > 0 || |itemSets| == 0)
    requires forall s :: s in itemSets && s != itemSet ==>
      Cosine(sqrt, s.features, a.features) <= Cosine(sqrt, s.features, b.features)
    ensures Dissimilarity(sqrt, itemSets, itemSet, a, total) >= Dissimilarity(sqrt, itemSets, itemSet, b, total)
  {
    if |itemSets| == 0 {
    } else {
      hide Cosine, IsSquareRoot, Apart;
      var other := Last(itemSets);
      DissimilarityOrder(sqrt, Front(itemSets), itemSet, a, b, total);
      if other != itemSet {
        assert other in itemSets;
        ApartCompared(sqrt, other, a, b, total);
      }
    }
  }

  lemma {:induction false} DissimilarityStrict(sqrt: real -> real, itemSets: seq<ItemSet>, itemSet: ItemSet,
          a: Item, b: Item, total: nat, s: ItemSet)
    requires IsSquareRoot(sqrt) && total > 0
    requires forall t :: t in itemSets && t != itemSet ==>
      Cosine(sqrt, t.features, a.features) <= Cosine(sqrt, t.features, b.features)
    requires s in itemSets && s != itemSet && |s.items| > 0
    requires Cosine(sqrt, s.features, a.features) < Cosine(sqrt, s.features, b.features)
    ensures Dissimilarity(sqrt, itemSets, itemSet, a, total) > Dissimilarity(sqrt, itemSets, itemSet, b, total)
  {
    hide Cosine, IsSquareRoot, Apart;
    var other := Last(itemSets);
    assert other in itemSets;
    if other != itemSet {
      ApartCompared(sqrt, other, a, b, total);
    }
    if other == s {
      DissimilarityOrder(sqrt, Front(itemSets), itemSet, a, b, total);
    } else {
      assert s in Front(itemSets);
      DissimilarityStrict(sqrt, Front(itemSets), itemSet, a, b, total, s);
    }
  }

  /** An item no worse than another never scores lower, and a better one scores higher. */
  lemma {:induction false} EvaluationOrder(sqrt: real -> real, itemSets: seq<ItemSet>, itemSet: ItemSet,
          a: Item, b: Item, total: nat)
    requires IsSquareRoot(sqrt) && (total > 0 || |itemSets| == 0) && NoWorse(sqrt, itemSets, itemSet, a, b)
    ensures Evaluation(sqrt, itemSets, itemSet, a, total) >= Evaluation(sqrt, itemSets, itemSet, b, total)
    ensures Better(sqrt, itemSets, itemSet, a, b) ==>
      Evaluation(sqrt, itemSets, itemSet, a, total) > Evaluation(sqrt, itemSets, itemSet, b, total)
  {
    hide Cosine, Dissimilarity, IsSquareRoot;
    DissimilarityOrder(sqrt, itemSets, itemSet, a, b, total);
    if Better(sqrt, itemSets, itemSet, a, b)
      && !(Cosine(sqrt, itemSet.features, b.features) < Cosine(sqrt, itemSet.features, a.features))
    {
      var s :| s in itemSets && s != itemSet && |s.items| > 0
        && Cosine(sqrt, s.features, a.features) < Cosine(sqrt, s.features, b.features);
      DissimilarityStrict(sqrt, itemSets, itemSet, a, b, total, s);
    }
  }

  // --- The ranking -------------------------------------------------------------------------

  // Inserts before the first entry whose key is not greater, as the map ordered by >= does.
  function Insert(ranked: seq<Scored>, entry: Scored): seq<Scored> {
    if |ranked| == 0 || entry.0 >= ranked[0].0 then [entry] + ranked
    else [ranked[0]] + Insert(ranked[1..], entry)
  }

  function Rank(entries: seq<Scored>): seq<Scored> {
    if |entries| == 0 then [] else Insert(Rank(Front(entries)), Last(entries))
  }

  // The entries the loop takes: it stops when it has taken `size`, which it never has for a size
  // below 1.
  function Take(ranked: seq<Scored>, size: int): (top: seq<Scored>)
    ensures |top| == if 1 <= size < |ranked| then size else |ranked|
    ensures top <= ranked
  {
    if 1 <= size < |ranked| then ranked[..size] else ranked
  }

  function Key(entry: Scored): real {
    entry.0
  }

  lemma {:induction false} InsertKeepsEntries(ranked: seq<Scored>, entry: Scored)
    ensures multiset(Insert(ranked, entry)) == multiset(ranked) + multiset{entry}
  {
    if |ranked| == 0 || entry.0 >= ranked[0].0 {
    } else {
      InsertKeepsEntries(ranked[1..], entry);
      assert ranked == [ranked[0]] + ranked[1..];
    }
  }

  lemma {:induction false} InsertKeepsOrder(ranked: seq<Scored>, entry: Scored)
    requires Sorting.Descending(ranked, Key)
    ensures Sorting.Descending(Insert(ranked, entry), Key)
  {
    if |ranked| == 0 || entry.0 >= ranked[0].0 {
    } else {
      InsertKeepsOrder(ranked[1..], entry);
      InsertKeepsEntries(ranked[1..], entry);
      var rest := Insert(ranked[1..], entry);
      forall j | 0 <= j < |rest| ensures ranked[0].0 >= rest[j].0 {
        assert rest[j] in multiset(rest);
        assert rest[j] == entry || rest[j] in ranked[1..];
      }
    }
  }

  lemma {:induction false} RankSorts(entries: seq<Scored>)
    ensures Sorting.Descending(Rank(entries), Key) && multiset(Rank(entries)) == multiset(entries)
  {
    if |entries| == 0 {
    } else {
      RankSorts(Front(entries));
      InsertKeepsOrder(Rank(Front(entries)), Last(entries));
      InsertKeepsEntries(Rank(Front(entries)), Last(entries));
      FrontLast(entries);
    }
  }

  // Entry a comes before entry b: it has the greater score, or the same and was inserted later.
  ghost predicate Ahead(scores: seq<real>, a: nat, b: nat)
    requires a < |scores| && b < |scores|
  {
    scores[a] > scores[b] || (scores[a] == scores[b] && a > b)
  }

  // All entries, by their numbers, each ahead of all after it.
  ghost predicate RankedBy(scores: seq<real>, order: seq<nat>) {
    && |order| == |scores|
    && (forall i :: 0 <= i < |order| ==> order[i] < |scores|)
    && forall i, j :: 0 <= i < j < |order| ==> Ahead(scores, order[i], order[j])
  }

  function KeysOf(entries: seq<Scored>): (keys: seq<real>)
    ensures |keys| == |entries|
  {
    seq(|entries|, k requires 0 <= k < |entries| => Key(entries[k]))
  }

  lemma {:induction false} InsertPosition(ranked: seq<Scored>, entry: Scored) returns (p: nat)
    ensures p <= |ranked| && Insert(ranked, entry) == ranked[..p] + [entry] + ranked[p..]
    ensures forall j :: 0 <= j < p ==> ranked[j].0 > entry.0
    ensures p < |ranked| ==> entry.0 >= ranked[p].0
  {
    if |ranked| == 0 || entry.0 >= ranked[0].0 {
      p := 0;
    } else {
      var q := InsertPosition(ranked[1..], entry);
      p := q + 1;
      assert ranked[..p] == [ranked[0]] + ranked[1..][..q] && ranked[p..] == ranked[1..][q..];
      forall j | 0 <= j < p ensures ranked[j].0 > entry.0 {
        assert j > 0 ==> ranked[j] == ranked[1..][j - 1];
      }
    }
  }

  // The number of a new entry enters the order where the entry is inserted.
  lemma RankNumber(scores: seq<real>, order: seq<nat>, score: real, p: nat)
    requires RankedBy(scores, order) && p <= |order|
    requires forall j :: 0 <= j < p ==> scores[order[j]] > score
    requires p < |order| ==> score >= scores[order[p]]
    ensures RankedBy(scores + [score], order[..p] + [|order|] + order[p..])
  {
    var n, all := |order|, scores + [score];
    var next := order[..p] + [n] + order[p..];
    forall i | 0 <= i < |next| ensures next[i] == if i < p then order[i] else if i == p then n else order[i - 1] {}
    forall i, j | 0 <= i < j < |next| ensures Ahead(all, next[i], next[j]) {
      if i < p && p < j {
        assert Ahead(scores, order[i], order[j - 1]);
      } else if i == p {
        assert p < j - 1 ==> Ahead(scores, order[p], order[j - 1]);
      } else if p < i {
        assert Ahead(scores, order[i - 1], order[j - 1]);
      } else if j < p {
        assert Ahead(scores, order[i], order[j]);
      }
    }
  }

  lemma RankNext(entries: seq<Scored>, k: nat)
    requires k < |entries|
    ensures Rank(entries[..k + 1]) == Insert(Rank(entries[..k]), entries[k])
  {
    assert Front(entries[..k + 1]) == entries[..k];
  }

  /** The ranking is the one order in which every entry is ahead of all after it. */
  lemma {:induction false} RankOrder(entries: seq<Scored>) returns (order: seq<nat>)
    ensures RankedBy(KeysOf(entries), order) && |Rank(entries)| == |entries|
    ensures forall i :: 0 <= i < |entries| ==> Rank(entries)[i] == entries[order[i]]
  {
    if |entries| == 0 {
      order := [];
    } else {
      hide Insert, RankedBy;
      var front, entry := Front(entries), Last(entries);
      var before := RankOrder(front);
      var p := InsertPosition(Rank(front), entry);
      order := before[..p] + [|front|] + before[p..];
      FrontLast(entries);
      KeysNext(front, entry);
      RankNumber(KeysOf(front), before, entry.0, p);
      RankAt(Rank(front), front, before, entry, p);
    }
  }

  lemma KeysNext(entries: seq<Scored>, entry: Scored)
    ensures KeysOf(entries + [entry]) == KeysOf(entries) + [entry.0]
  {}

  lemma RankAt(ranked: seq<Scored>, front: seq<Scored>, before: seq<nat>, entry: Scored, p: nat)
    requires |ranked| == |front| == |before| && p <= |front|
    requires forall i :: 0 <= i < |before| ==> before[i] < |front| && ranked[i] == front[before[i]]
    ensures var order, next := before[..p] + [|front|] + before[p..], ranked[..p] + [entry] + ranked[p..];
      forall i :: 0 <= i < |next| ==> order[i] < |front| + 1 && next[i] == (front + [entry])[order[i]]
  {
    var order, next := before[..p] + [|front|] + before[p..], ranked[..p] + [entry] + ranked[p..];
    forall i | 0 <= i < |next| ensures order[i] < |front| + 1 && next[i] == (front + [entry])[order[i]] {
      assert next[i] == if i < p then ranked[i] else if i == p then entry else ranked[i - 1];
      assert order[i] == if i < p then before[i] else if i == p then |front| else before[i - 1];
    }
  }

  // The top entries and those left are the entries; the top ones are as many as asked for, or all,
  // in non-increasing order, and none left has a greater key.
  ghost predicate IsTop(entries: seq<Scored>, size: int, top: seq<Scored>, left: seq<Scored>) {
    && multiset(top) + multiset(left) == multiset(entries)
    && |top| == (if 1 <= size < |entries| then size else |entries|)
    && Sorting.Descending(top, Key)
    && forall e, t :: e in left && t in top ==> e.0 <= t.0
  }

  /** What is taken is, in non-increasing order, as many entries as asked for, or all of them;
      the entries left out, which are the others, have no greater key than any taken. */
  lemma TakeIsGreatest(entries: seq<Scored>, size: int) returns (left: seq<Scored>)
    ensures IsTop(entries, size, Take(Rank(entries), size), left)
  {
    var ranked := Rank(entries);
    RankSorts(entries);
    assert |multiset(ranked)| == |ranked| && |multiset(entries)| == |entries|;
    var n := |Take(ranked, size)|;
    left := ranked[n..];
    assert ranked == ranked[..n] + left;
    SplitDescending(ranked, n);
  }

  lemma SplitDescending(ranked: seq<Scored>, n: nat)
    requires Sorting.Descending(ranked, Key) && n <= |ranked|
    ensures Sorting.Descending(ranked[..n], Key)
    ensures forall e, t :: e in ranked[n..] && t in ranked[..n] ==> e.0 <= t.0
  {
    forall e, t | e in ranked[n..] && t in ranked[..n] ensures e.0 <= t.0 {
      var j :| 0 <= j < |ranked| - n && ranked[n..][j] == e;
      var i :| 0 <= i < n && ranked[..n][i] == t;
      assert ranked[n + j] == e && ranked[i] == t;
    }
  }

  // --- The selection -----------------------------------------------------------------------

  // No score is 0/0: there are items to weigh by, no sets to weigh, or no items to score.
  ghost predicate Weighable(itemSets: seq<ItemSet>, itemSet: ItemSet)
    reads itemSets, itemSet
  {
    TotalItems(itemSets) > 0 || |itemSets| == 0 || |itemSet.items| == 0
  }

  // That is so when the set is one of the list.
  lemma OwnSetWeighable(itemSets: seq<ItemSet>, itemSet: ItemSet)
    requires itemSet in itemSets
    ensures Weighable(itemSets, itemSet)
  {
    TotalAtLeast(itemSets, itemSet);
  }

  ghost function Entries(sqrt: real -> real, itemSets: seq<ItemSet>, itemSet: ItemSet): (entries: seq<Scored>)
    requires IsSquareRoot(sqrt) && Weighable(itemSets, itemSet)
    reads itemSets, itemSet
  {
    seq(|itemSet.items|, k requires 0 <= k < |itemSet.items| && Weighable(itemSets, itemSet) reads itemSets, itemSet =>
      (Evaluation(sqrt, itemSets, itemSet, itemSet.items[k], TotalItems(itemSets)), itemSet.items[k]))
  }

  function ItemsOf(entries: seq<Scored>): (items: seq<Item>)
    ensures |items| == |entries|
  {
    seq(|entries|, k requires 0 <= k < |entries| => entries[k].1)
  }

  // The scores of the set's items.
  ghost function Scores(sqrt: real -> real, itemSets: seq<ItemSet>, itemSet: ItemSet): (scores: seq<real>)
    requires IsSquareRoot(sqrt) && Weighable(itemSets, itemSet)
    reads itemSets, itemSet
    ensures |scores| == |itemSet.items|
  {
    KeysOf(Entries(sqrt, itemSets, itemSet))
  }

  /** The chosen items are the first in the order of the set's items by descending score, the later
      one first among equal scores; so a better item always stands before a worse one. */
  ghost predicate FirstOf(sqrt: real -> real, itemSets: seq<ItemSet>, itemSet: ItemSet, size: int, top: seq<Item>,
          order: seq<nat>)
    requires IsSquareRoot(sqrt) && Weighable(itemSets, itemSet)
    reads itemSets, itemSet
  {
    && RankedBy(Scores(sqrt, itemSets, itemSet), order)
    && |top| == (if 1 <= size < |itemSet.items| then size else |itemSet.items|)
    && (forall i :: 0 <= i < |top| ==> top[i] == itemSet.items[order[i]])
    && (forall i, j :: 0 <= i < j < |order| ==>
          !Better(sqrt, itemSets, itemSet, itemSet.items[order[j]], itemSet.items[order[i]]))
  }

  lemma {:induction false} BetterFirst(sqrt: real -> real, itemSets: seq<ItemSet>, itemSet: ItemSet, order: seq<nat>)
    requires IsSquareRoot(sqrt) && Weighable(itemSets, itemSet)
    requires RankedBy(Scores(sqrt, itemSets, itemSet), order)
    ensures forall i, j :: 0 <= i < j < |order| ==>
      !Better(sqrt, itemSets, itemSet, itemSet.items[order[j]], itemSet.items[order[i]])
  {
    hide Better, NoWorse, Evaluation, TotalItems;
    forall i, j | 0 <= i < j < |order|
      ensures !Better(sqrt, itemSets, itemSet, itemSet.items[order[j]], itemSet.items[order[i]])
    {
      var scores, a, b := Scores(sqrt, itemSets, itemSet), itemSet.items[order[i]], itemSet.items[order[j]];
      assert Ahead(scores, order[i], order[j]);
      BetterScores(sqrt, itemSets, itemSet, b, a);
    }
  }

  lemma {:induction false} BetterScores(sqrt: real -> real, itemSets: seq<ItemSet>, itemSet: ItemSet, a: Item, b: Item)
    requires IsSquareRoot(sqrt) && (TotalItems(itemSets) > 0 || |itemSets| == 0)
    ensures Better(sqrt, itemSets, itemSet, a, b) ==>
      Evaluation(sqrt, itemSets, itemSet, a, TotalItems(itemSets))
        > Evaluation(sqrt, itemSets, itemSet, b, TotalItems(itemSets))
  {
    if Better(sqrt, itemSets, itemSet, a, b) {
      EvaluationOrder(sqrt, itemSets, itemSet, a, b, TotalItems(itemSets));
    }
  }

  // The first of the ranking, as items.
  lemma {:induction false} TopIsFirst(sqrt: real -> real, itemSets: seq<ItemSet>, itemSet: ItemSet,
          size: int) returns (order: seq<nat>)
    requires IsSquareRoot(sqrt) && Weighable(itemSets, itemSet)
    ensures var entries := Entries(sqrt, itemSets, itemSet);
      var taken := Take(Rank(entries), size);
      FirstOf(sqrt, itemSets, itemSet, size, ItemsOf(taken), order) && exists left :: IsTop(entries, size, taken, left)
  {
    hide Better, Evaluation, TotalItems, Rank;
    var entries := Entries(sqrt, itemSets, itemSet);
    order := RankOrder(entries);
    BetterFirst(sqrt, itemSets, itemSet, order);
    var left := TakeIsGreatest(entries, size);
  }

  method CountItems(itemSets: seq<ItemSet>) returns (number: nat)
    ensures number == TotalItems(itemSets)
  {
    number := 0;
    for k := 0 to |itemSets|
      invariant number == TotalItems(itemSets[..k])
    {
      assert Front(itemSets[..k + 1]) == itemSets[..k];
      number := number + |itemSets[k].items|;
    }
    assert itemSets[..|itemSets|] == itemSets;
  }

  method EvaluateApart(sqrt: real -> real, other: ItemSet, item: Item, total: nat) returns (r: real)
    requires IsSquareRoot(sqrt) && total > 0
    ensures r == Apart(sqrt, other, item, total)
  {
    var cosine := EvaluateCosine(sqrt, other.features, item.features);
    var weight := |other.items| as real / total as real;
    r := weight * (1.0 - cosine);
  }

  method Evaluate(sqrt: real -> real, itemSets: seq<ItemSet>, itemSet: ItemSet, item: Item,
          total: nat) returns (r: real)
    requires IsSquareRoot(sqrt) && (total > 0 || |itemSets| == 0)
    ensures r == Evaluation(sqrt, itemSets, itemSet, item, total)
  {
    var similarity := EvaluateCosine(sqrt, itemSet.features, item.features);
    var dissimilarity := 0.0;
    for k := 0 to |itemSets|
      invariant dissimilarity == Dissimilarity(sqrt, itemSets[..k], itemSet, item, total)
    {
      assert Front(itemSets[..k + 1]) == itemSets[..k];
      if itemSets[k] == itemSet {
        continue;
      }
      var apart := EvaluateApart(sqrt, itemSets[k], item, total);
      dissimilarity := dissimilarity + apart;
    }
    assert itemSets[..|itemSets|] == itemSets;
    r := similarity + dissimilarity;
  }

  /** The items of the greatest scores, as many as asked for or all, in non-increasing order. */
  method TopK(sqrt: real -> real, itemSets: seq<ItemSet>, itemSet: ItemSet, size: int)
      returns (top: seq<Item>, ghost order: seq<nat>)
    requires IsSquareRoot(sqrt) && Weighable(itemSets, itemSet)
    ensures FirstOf(sqrt, itemSets, itemSet, size, top, order)
    ensures exists taken, left :: top == ItemsOf(taken) && IsTop(Entries(sqrt, itemSets, itemSet), size, taken, left)
  {
    hide *;
    var mapping := RankItems(sqrt, itemSets, itemSet);
    top := SelectTop(mapping, size);
    order := TopIsFirst(sqrt, itemSets, itemSet, size);
  }

  // The loop that scores the items and fills the ordered map.
  method RankItems(sqrt: real -> real, itemSets: seq<ItemSet>, itemSet: ItemSet) returns (mapping: seq<Scored>)
    requires IsSquareRoot(sqrt) && Weighable(itemSets, itemSet)
    ensures mapping == Rank(Entries(sqrt, itemSets, itemSet))
  {
    ghost var entries := Entries(sqrt, itemSets, itemSet);
    var number := CountItems(itemSets);
    mapping := [];
    for k := 0 to |itemSet.items|
      invariant mapping == Rank(entries[..k])
    {
      hide Rank, Insert, Evaluation;
      RankNext(entries, k);
      var evaluation := Evaluate(sqrt, itemSets, itemSet, itemSet.items[k], number);
      mapping := Insert(mapping, (evaluation, itemSet.items[k]));
    }
    assert entries[..|itemSet.items|] == entries;
  }

  method SelectTop(mapping: seq<Scored>, size: int) returns (top: seq<Item>)
    ensures top == ItemsOf(Take(mapping, size))
  {
    top := [];
    var counter := 0;
    while counter < |mapping|
      invariant 0 <= counter <= |mapping| && (size < 1 || counter < size || (counter == 0 == |mapping|))
      invariant top == ItemsOf(mapping[..counter])
    {
      top := top + [mapping[counter].1];
      counter := counter + 1;
      assert ItemsOf(mapping[..counter]) == top;
      if counter == size {
        return;
      }
    }
    assert mapping[..counter] == mapping;
  }
}
