# A verified model of the microblog mining core

The repository crawls microblogs, filters spam, clusters posts and extracts topics. This project
models its algorithms in Dafny and proves what they compute, over every input, every run and every
reachable state. The project file is `dfyconfig.toml`.

## What is modelled

**Fingerprints** (`Words`, `HammingBall`, `BallOrder`, `SimHash`, `FingerprintStore`, `RefCounts`). 32-bit words
are numbers below 2^32 with their binary digits; `&`, `|`, `^` are defined digit by digit, and the
bit-clearing distance loop and the mask table are proved against the set of digits where two words
differ. On that metric rest the exactness of the recursive Hamming-ball enumeration (sound, complete,
each word once, with its size and its order), the safety of the write-back fingerprint cache as a state machine
over recordings and flushes, and the reference counter, whose ball lookup refines a linear scan. The
same simhash code in `DataProcess/src/coverage/simhash.cpp` is modelled once.

**Spam scores** (`Bayes`). Word statistics, training of one classifier for each large catalogue, and
the score of a post, which depends on the set of stored words it has and grows with that set.

**Hierarchical clustering** (`Vectors`, `ItemSets`, `Partitions`, `CategoryUtility`, `ClusterRuns`,
`Clustering`, `Representatives`, `SubTopics`). `HierarchyClustering` and its `StateKeeper` are classes that change
item sets in place. Their invariant ties the live sets, the incrementally patched similarity table and
the keeper's deep snapshots to a ghost run: the sequence of partitions gone through. What holds of runs
is proved for any measure of similarity: conservation, exact means, category utility that is never
negative and exactly 0 at the end, its exact loss at a merge, and which state the keeper holds. The
parts meet in `SubTopics.StoreSubTopics`, the program from message vectors to stored tables.

**Topics** (`Cooccurrence`, `SinglePass`, `TopicIndex`, `TopicClusters`, `TopicBatches`). The
co-occurrence matrix has a closed form over the scanned posts; the single pass partitions the feature
words into dense topics; the inverted index lists exactly the posts that direct counting gives; and
storing a topic in batches conserves its posts. The parts meet in `TopicBatches.AllTopicsStored`:
every post reaches the database once for each kept topic it belongs to.

**Text overlap** (`Jaccard`). The scan that erases what it matches counts the multiset intersection.

`Sequences`, `Sums`, `Sorting` and `Wrappers` hold what these share.

## Modelling decisions

- Doubles are reals. The library's square root is a parameter that is only required to be a
  non-negative root of its argument.
- The database is a set of fingerprints, or the list of batches inserted so far; scanned posts, the
  threshold of the single pass, the trash verdict and the segmentation into words are inputs.
- `std::sort`, `max_element` over pointer pairs and the iteration over maps and sets leave an order
  open; so do the methods here, which pick any element and promise no more than the source does.
- A topic word's list of posts is an entry of the topic's map from words to posts; a word with no
  entry has an empty list.
- Items share one dimension, as the adapter for bit vectors gives them; `Prepare` needs an item, and
  so `StoreSubTopics` a message with a keyword: without items the source takes the front of an empty
  list.

## Where the code and its comments differ

- The fingerprint check is documented as telling whether a value has been recorded
  (`preprocessor.cpp:93-97`). After a flush it may not: `RecordedThenForgotten` gives a family of
  runs, `StillDetected` says exactly which recorded values a whole run still finds. Being absorbed by
  a cached neighbour at recording is the only way to be forgotten (`StoredDetectedForever`).
- `AddFingerPrint` of the reference counter is documented to return the detected entry; the lookup
  `GetRefCount` reports, for every fingerprint, the stored key within the distance that it enumerates
  last (`ReportedKeyIsLast`), whatever the counts. `ReportedKeyCarriesCount` says when that key has
  the reported count: exactly when no stored key within the distance outnumbers it.
  `ReportedKeyMismatch` and `ReportedKeyMismatchOfCounted` are runs where one does, for a stored
  fingerprint and for one that was counted for a neighbour, as the callers look them up
  (`run_ref_bayes.cpp:116`).
- The comment before the filter of results says 3%, the constant is 10% (`cluster_related.cc:37`,
  `cluster_related.cc:236`); comments on batches say 50 and 5000, the code uses a configured number
  and 10000 (`TopicViewAndPolitics.cpp:132-154`).
- A topic judged trash is meant not to be inserted (`TopicViewAndPolitics.cpp:147`). When it is
  judged after its 10000th post, earlier batches already are: `TrashInsertsNothing` is the exact
  condition, `TrashInserted` and `TrashTopicInserted` are instances. Both programs judge at the 50th
  post (`VirtualProjectMain.cpp:32`, `VirtualProjectMain_querytable.cpp:37`), so as they are set no
  trash topic leaves anything behind (`SetNumberLeavesNoTrash`).
- A clustering of a single item reports nothing, because the keeper is only shown states after a move
  (`SingleItemRun`).
- `TopK` with a size below 1 returns all items (`TakeIsGreatest`). It orders its multimap by
  `greater_equal` (`utils.cc:65-66`), which is not the strict order a multimap requires; the model
  gives an entry the place before the first one whose score is not greater.
- The classifier and its factory do not compile as written; the arithmetic modelled is the one their
  bodies spell out.

## Model

| member | source | states |
|---|---|---|
| Words.XorArrIsPow2 | weibo_ad_filter/src/simhash/simhash.h:22-56 | each entry of the mask table is the power of two of its position |
| Words.DistanceIsAMetric | weibo_ad_filter/src/simhash/simhash.cpp:61-70 | the distance is at most 32, zero only between equal words, symmetric, and obeys the triangle inequality |
| Words.ClearLowest | weibo_ad_filter/src/simhash/simhash.cpp:67 | for a nonzero v, v & (v - 1) has all digits of v but one |
| Words.CalculateDistance | weibo_ad_filter/src/simhash/simhash.cpp:61-70 | the bit-clearing loop terminates and returns the number of positions where the words differ |
| Words.FlipByTable | weibo_ad_filter/src/simhash/simhash.cpp:90 | the exclusive or with a table entry flips exactly that position |
| HammingBall.EnumerateFrom | weibo_ad_filter/src/simhash/simhash.cpp:83-94 | the recursion appends a fixed sequence to the shared vector and keeps what was there |
| HammingBall.EnumerateExactly | weibo_ad_filter/src/simhash/simhash.cpp:83-94 | a word is enumerated from a position on exactly when it differs in at least one position, only in positions from there on, and in at most dist of them |
| HammingBall.EnumerateOnce | weibo_ad_filter/src/simhash/simhash.cpp:83-94 | no word is enumerated twice |
| HammingBall.HammingValuesWithinDistance | weibo_ad_filter/src/simhash/simhash.cpp:78-81 | the ball is appended to the vector |
| HammingBall.BallIsExact | weibo_ad_filter/src/simhash/simhash.cpp:78-94 | for every value and every distance the ball holds exactly the words within the distance, each once; a negative distance bounds nothing |
| BallOrder.BeforeIsTotal | weibo_ad_filter/src/simhash/simhash.cpp:83-94 | of two different words exactly one comes before the other: by dictionary order of their sorted lists of changed positions, the value itself after all others |
| BallOrder.BallIsOrdered | weibo_ad_filter/src/simhash/simhash.cpp:78-94 | a word of the ball stands before another exactly when it comes before it in this order |
| HammingBall.BallSize | weibo_ad_filter/src/simhash/simhash.cpp:78-94 | the number appended is the sum of C(32, k) for k up to min(dist, 32), and 2^32 for a negative distance |
| SimHash.RSHash | weibo_ad_filter/src/simhash/simhash.cpp:5-14 | the loop computes the 32-bit hash polynomial of the characters before the first zero byte, with 31 digits |
| SimHash.WordHashNext | weibo_ad_filter/src/simhash/simhash.cpp:5-14 | a further character multiplies the hash by 63689 * 378551^n, where n is the number of characters before it, and is added as a signed number, modulo 2^31 |
| SimHash.WordHashEnds | weibo_ad_filter/src/simhash/simhash.cpp:5-14 | the empty text has hash 0, and nothing from a zero byte on is hashed |
| SimHash.Majority | weibo_ad_filter/src/simhash/simhash.cpp:37-55 | digit i is set exactly when more than half of the hashes have it |
| SimHash.OnesIsCount | weibo_ad_filter/src/simhash/simhash.cpp:40-48 | what is compared with half of the hashes is the number of positions whose hash has the digit |
| SimHash.BlogHashAfterParser | weibo_ad_filter/src/simhash/simhash.cpp:30-56 | the fingerprint is the strict majority of its words' hashes, and its top digit is clear |
| SimHash.HighDigitClear | weibo_ad_filter/src/simhash/simhash.cpp:13-55 | because word hashes have 31 digits no fingerprint has digit 31 |
| SimHash.MaskTests | weibo_ad_filter/src/simhash/simhash.cpp:42 | masking with 1 << i tells whether digit i is set |
| SimHash.MajorityInvariant | weibo_ad_filter/src/simhash/simhash.cpp:37-55 | the majority is determined by the hashes as a multiset, and doubling them does not change it |
| SimHash.FingerprintInvariant | weibo_ad_filter/src/simhash/simhash.cpp:30-56 | permuting the words of a post, or writing the list twice, leaves the fingerprint as it is |
| FingerprintStore.Preprocessor.AddFingerPrint | weibo_ad_filter/src/tactic/preprocessor.cpp:53-70 | recording is one step of the store: nothing changes when a cached word is near, otherwise the word is cached, and the 10000th flushes |
| FingerprintStore.Preprocessor.FlushCachedFingerprint | weibo_ad_filter/src/tactic/preprocessor.cpp:78-91 | a flush empties the cache and adds to the database exactly the cached words no database word is near |
| FingerprintStore.Preprocessor.IsParsedBlogInFingerprints | weibo_ad_filter/src/tactic/preprocessor.cpp:98-111 | a word is found exactly when some cached or database word is within the distance |
| FingerprintStore.Preprocessor.PerformTacticOnParsedBlog | weibo_ad_filter/src/tactic/preprocessor.cpp:36-46 | a post is kept exactly when its fingerprint is not found; the two counters count all and found posts |
| FingerprintStore.StepSettled | weibo_ad_filter/src/tactic/preprocessor.cpp:53-91 | each step keeps the cache below the threshold and separated, the database growing and separated |
| FingerprintStore.StepIs | weibo_ad_filter/src/tactic/preprocessor.cpp:53-91 | recording changes nothing near a cached word, otherwise caches the word, and only as the 10000th flushes; a flush empties the cache and adds to the database exactly the cached words no database word is near |
| FingerprintStore.StepCovers | weibo_ad_filter/src/tactic/preprocessor.cpp:53-91 | no step loses a word from within twice the distance, nor, without a flush, from within the distance of the cache |
| FingerprintStore.RunIsSafe | weibo_ad_filter/src/tactic/preprocessor.cpp:53-111 | over every run of recordings and flushes: cache below 10000 and pairwise more than dist apart, database only growing and pairwise more than dist apart if it started so, every recorded word within 2*dist of a stored one, and within dist of a cached one until the next flush |
| FingerprintStore.DetectedAfterFlush | weibo_ad_filter/src/tactic/preprocessor.cpp:78-111 | a word is still found after a flush exactly when the database had a word near it, or a cached word near it that itself passed the flush's query |
| FingerprintStore.StillDetected | weibo_ad_filter/src/tactic/preprocessor.cpp:53-111 | after a whole run a recorded word is found exactly when the database was near it from the start, some flush let a word near it into the database, or a cached word is near it, as for all recorded since the last flush |
| FingerprintStore.DatabaseAtEnd | weibo_ad_filter/src/tactic/preprocessor.cpp:53-91 | the database is near a word at the end exactly when it was at the start or some flush let a word near it in |
| FingerprintStore.DatabaseDetectsForever | weibo_ad_filter/src/tactic/preprocessor.cpp:53-111 | what the database is near at any time is found for the rest of the run |
| FingerprintStore.StoredDetectedForever | weibo_ad_filter/src/tactic/preprocessor.cpp:53-111 | a word no cached word was near when it was recorded is found for the rest of the run, so that only a word absorbed by a cached neighbour can be forgotten |
| FingerprintStore.RecordedThenForgotten | weibo_ad_filter/src/tactic/preprocessor.cpp:78-111 | at distance 1, for every word and every two positions, a run after which a recorded word is no longer found |
| RefCounts.BestIsFirstMaximum | weibo_ad_filter/src/ref_count/ref.h:35-48 | the scan picks the first of the enumerated stored keys that has the greatest count, and none exactly when no key is stored |
| RefCounts.AddCountsForGreatest | weibo_ad_filter/src/ref_count/ref.h:32-56 | an addition counts for the stored key within the distance that has the greatest count and, among those with that count, comes first; and for the fingerprint itself, from 1 on, when no key is near |
| RefCounts.AdditionsCountForGreatest | weibo_ad_filter/src/ref_count/ref.h:32-56 | in any sequence of additions each key returned is that one, by the counts of the additions before it |
| RefCounts.RefCount.AddFingerPrint | weibo_ad_filter/src/ref_count/ref.h:32-56 | the returned key is, of the stored keys within the distance, the first enumerated of greatest count, or the fingerprint itself if there is none; exactly its count changes, by an unsigned addition of 1 |
| RefCounts.AddStep | weibo_ad_filter/src/ref_count/ref.h:32-56 | an addition keeps keys apart and counts positive, returns a key within the distance, and raises exactly that key's count by one |
| RefCounts.AddAllIsSafe | weibo_ad_filter/src/ref_count/ref.h:32-56 | over any sequence of additions at a fixed distance: keys pairwise more than it apart, counts at least 1, each returned key stored and within it, and the counts, as a multiset, are the returned keys |
| RefCounts.RefCount.GetRefCount | weibo_ad_filter/src/ref_count/ref.h:63-79 | when a stored key is within the distance, the greatest count of such keys and the one of them enumerated last; otherwise 0 and the key passed in; nothing changes |
| RefCounts.MaxCountIsLinearScan | weibo_ad_filter/src/ref_count/ref.h:63-79 | the lookup's count is the greatest over all stored keys within the distance, 0 when there is none |
| RefCounts.MaxCountMonotone | weibo_ad_filter/src/ref_count/ref.h:63-79 | looking further never lowers the count |
| RefCounts.ReportedKeyIsLast | weibo_ad_filter/src/ref_count/ref.h:63-79 | for every fingerprint, stored or not, the reported key is the stored key within the distance that is enumerated last, and none is reported exactly when there is none |
| RefCounts.ReportedKeyCarriesCount | weibo_ad_filter/src/ref_count/ref.h:63-79 | the reported key carries the reported count exactly when no stored key within the distance outnumbers the one enumerated last |
| RefCounts.ReportedKeyMismatch | weibo_ad_filter/src/ref_count/ref.h:63-79 | a stored fingerprint reported for itself although a neighbour two away outnumbers it |
| RefCounts.ReportedKeyMismatchOfCounted | weibo_ad_filter/src/ref_count/ref.h:32-79 | for every fingerprint and positions i < j < l, additions after which it is not stored, the count is that of the neighbour it counted for, and the key is another one |
| RefCounts.RefCount.Clear | weibo_ad_filter/src/ref_count/ref.h:94-96 | clearing empties the table |
| RefCounts.CataloguesAgreeWithCounts | weibo_ad_filter/src/run_ref_bayes.cpp:66-86 | each catalogue is keyed by a stored fingerprint, has as many posts as its count, all within the distance of it |
| RefCounts.FillCatalogues | weibo_ad_filter/src/run_ref_bayes.cpp:59-86 | all posts are kept, and the catalogue of each key holds, in order, exactly the posts for which the counter returned it; catalogue sizes are the counts |
| Bayes.MakeWordDict | weibo_ad_filter/src/bayes/bayes_factory.h:65-80 | the dictionary has exactly the words that occur, each with its occurrences divided by the number of posts |
| Bayes.OverallIsOccurrences | weibo_ad_filter/src/bayes/bayes_factory.h:65-80 | the count behind every word statistic is the number of positions in posts where the word stands |
| Bayes.StoredProbability | weibo_ad_filter/src/bayes/bayes_classifier.h:79-82 | p(w given S) capped at 1, times p(S), over p(w), is the capped catalogue count over the overall count |
| Bayes.Train | weibo_ad_filter/src/bayes/bayes_classifier.h:65-85 | a word is stored exactly when its count in the catalogue, capped by the catalogue's size, is more than half its overall count, with the ratio of the two as probability |
| Bayes.OverallOfSome | weibo_ad_filter/src/bayes/bayes_classifier.h:66-76 | a word occurs no more often in the catalogue than overall |
| Bayes.TrainedFavours | weibo_ad_filter/src/bayes/bayes_classifier.h:77-85 | every stored probability lies in (1/2, 1] |
| Bayes.Classifier.constructor | weibo_ad_filter/src/bayes/bayes_classifier.h:61-87 | a new classifier holds exactly the trained probabilities, all in (1/2, 1] |
| Bayes.Classifier.IsSpam | weibo_ad_filter/src/bayes/bayes_classifier.h:89-118 | no score below two distinct stored words; otherwise the odds of the score are those of the product of the stored words' probabilities against the product of their complements, and spam means it reaches the threshold |
| Bayes.ProductsOrdered | weibo_ad_filter/src/bayes/bayes_classifier.h:97-112 | the numerator is positive and above the other product as soon as a word matches, so the denominator of the score is positive |
| Bayes.VerdictBounds | weibo_ad_filter/src/bayes/bayes_classifier.h:89-118 | a post is scored exactly when it has two distinct stored words, and the score lies in (1/2, 1] |
| Bayes.VerdictOdds | weibo_ad_filter/src/bayes/bayes_classifier.h:106-117 | (1 - s) times the product of the probabilities is s times the product of their complements, over the stored words of the post in any order |
| Bayes.VerdictOfTwo | weibo_ad_filter/src/bayes/bayes_classifier.h:106-117 | two stored words of probabilities p and q score p*q / (p*q + (1-p)*(1-q)) |
| Bayes.VerdictExtends | weibo_ad_filter/src/bayes/bayes_classifier.h:106-117 | one more stored word of probability p turns a score s into s*p / (s*p + (1-s)*(1-p)) |
| Bayes.ScoreMonotone | weibo_ad_filter/src/bayes/bayes_classifier.h:97-112 | matching further stored words never lowers the score, and posts matching the same set of stored words score the same, whatever order and repetitions |
| Bayes.VerdictMonotone | weibo_ad_filter/src/bayes/bayes_classifier.h:89-118 | with further stored words a scored post stays scored, and no lower |
| Bayes.GroupBlogs | weibo_ad_filter/src/bayes/bayes_factory.h:37-43 | each catalogue holds, in order, the posts of its fingerprint without those whose text has a # |
| Bayes.CatalogueIsCatalogue | weibo_ad_filter/src/bayes/bayes_factory.h:37-43 | the posts of a catalogue are those at increasing positions, exactly the posts counted under its fingerprint whose text has no # |
| Bayes.MakeBayesClassifiers | weibo_ad_filter/src/bayes/bayes_factory.h:35-58 | one classifier for exactly each fingerprint with at least five such posts, trained on them against all posts, with threshold 0.8 |
| Vectors.EvaluateCosine | weibo_models/src/data_mining/utils-inl.h:22-39 | the loop computes the cosine: dot product over the roots' product, 0 for different sizes or a zero vector |
| Vectors.CauchySchwarz | weibo_models/src/data_mining/utils-inl.h:29-33 | the squared dot product is at most the product of the sums of squares |
| Vectors.CosineBounds | weibo_models/src/data_mining/utils-inl.h:22-39 | the cosine is symmetric, at most 1, not negative without negative coordinates, and 1 of a nonzero vector with itself |
| Vectors.LawOfCosines | weibo_models/src/data_mining/utils-inl.h:22-39 | the squared distance of two vectors is the sum of their squares less twice the product of their lengths and their cosine, also when one is zero |
| Vectors.DotConcat | weibo_models/src/data_mining/utils-inl.h:22-39 | the dot product is the product for single coordinates, and adds up over joined vectors |
| Vectors.CalculateMean | weibo_models/src/data_mining/utils-inl.h:42-63 | the two loops compute the coordinate-wise mean |
| Vectors.MeanPermuted | weibo_models/src/data_mining/utils-inl.h:42-63 | the mean does not depend on the order of the vectors |
| Vectors.MeanConcat | weibo_models/src/data_mining/utils-inl.h:42-63 | the mean of two groups joined is the weighted mean of their means |
| Vectors.CalculateSumOfSquares | weibo_models/src/data_mining/utils-inl.h:66-74 | the loop computes the sum of squares |
| Vectors.WardIdentity | weibo_models/src/data_mining/utils-inl.h:42-74 | joining two groups loses exactly the weighted squared distance of their means |
| Vectors.WardDistanceIsScaled | weibo_models/src/data_mining/utils-inl.h:42-74 | that distance is pq/(p+q) times the squared distance of the means |
| ItemSets.AdaptBitset | weibo_models/src/data_mining/item_related.h:73-83 | features are 1 or 0 bit by bit, so none is negative, and the vector is nonzero exactly when some bit is set |
| ItemSets.ItemSet.Merge | weibo_models/src/data_mining/item_related.cc:71-80 | a merge appends the other set's items, keeps the id, and sets the exact mean |
| ItemSets.ItemSet.UpdateMeanFeatures | weibo_models/src/data_mining/item_related.cc:62-68 | the features become the mean of the items' features |
| ItemSets.ItemSet.Similarity | weibo_models/src/data_mining/item_related.cc:55-59 | similarity is the cosine of the current features |
| Partitions.MergePartition | weibo_models/src/data_mining/cluster_related.cc:182-193 | a merge keeps the partition: no index lost or doubled, each group led by its smallest index, groups sorted by it |
| Partitions.ItemsConserved | weibo_models/src/data_mining/cluster_related.cc:147-193 | in every partition the item sets together hold exactly the added items |
| CategoryUtility.Evaluate | weibo_models/src/data_mining/utils.cc:39-54 | the loop computes the category utility of the sets' current values |
| CategoryUtility.EnergyAtLeastJoined | weibo_models/src/data_mining/utils.cc:43-52 | the weighted squared means of any sets are at least the squared mean of all their items |
| CategoryUtility.MergeLosesEnergy | weibo_models/src/data_mining/utils.cc:43-52 | a merge lowers the weighted squared means by exactly the Ward distance of the two sets |
| ClusterRuns.UtilityNonNegative | weibo_models/src/data_mining/utils.cc:39-54 | on every partition the utility is not negative, so the first one evaluated replaces the initial -1 |
| ClusterRuns.UtilityOfOneSet | weibo_models/src/data_mining/utils.cc:39-54 | with everything in one set the utility is exactly 0 |
| ClusterRuns.MergeLowersUtility | weibo_models/src/data_mining/utils.cc:39-54 | a merge lowers utility times number of sets by exactly the merged sets' weighted distance over the number of items |
| ClusterRuns.ViewsMerged | weibo_models/src/data_mining/cluster_related.cc:188-193 | merging two groups gives the item set with both sets' items, the first's id and the exact joint mean, and leaves all others |
| ClusterRuns.ViewsNonNegative | weibo_models/src/data_mining/item_related.h:73-83 | when no item has a negative coordinate no reachable item set has one |
| ClusterRuns.RunPartitions | weibo_models/src/data_mining/cluster_related.cc:147-225 | after t moves every reachable state is a partition of the added items with n - t sets |
| ClusterRuns.RunLowersUtility | weibo_models/src/data_mining/cluster_related.cc:182-220 | along a run utility times number of sets never rises |
| ClusterRuns.KeeperHoldsLatestBest | weibo_models/src/data_mining/cluster_related.cc:126-139 | after any run the keeper holds the latest state of greatest utility among the states shown to it, and its initial values when none was |
| ClusterRuns.LargeBounds | weibo_models/src/data_mining/cluster_related.cc:228-248 | at most ten sets hold a tenth of the items; of at most ten sets at least one does |
| ClusterRuns.LargePicks | weibo_models/src/data_mining/cluster_related.cc:235-247 | the large sets are those at increasing positions, which are exactly the positions of the sets with at least a tenth of the items |
| ClusterRuns.CompleteRun | weibo_models/src/data_mining/cluster_related.cc:117-248 | a run of n >= 2 items down to one set: final utility 0, the kept state is the latest with the greatest utility among states of at most 20 sets, it holds every item, and at most ten of its sets are reported |
| ClusterRuns.SingleItemRun | weibo_models/src/data_mining/cluster_related.cc:216-248 | a single item is never shown to the keeper, so nothing is reported |
| Clustering.SearchItemSet | weibo_models/src/data_mining/cluster_related.cc:60-65 | the search returns the first position whose id is not smaller |
| Clustering.InsertItemSet | weibo_models/src/data_mining/cluster_related.cc:75-82 | the set is inserted before the first set with a larger id |
| Clustering.FindMaxSimilarity | weibo_models/src/data_mining/cluster_related.cc:85-97 | some pair of greatest similarity is returned |
| Clustering.ClusterCached.constructor | weibo_models/src/data_mining/cluster_related.cc:100-109 | the snapshot is a new item set with the same value |
| Clustering.StateKeeper.constructor | weibo_models/src/data_mining/cluster_related.cc:117-139 | the keeper starts with no snapshot and maximum -1 |
| Clustering.StateKeeper.Init | weibo_models/src/data_mining/cluster_related.cc:117-123 | the evaluator gets the number of sets and the squared mean of all items |
| Clustering.StateKeeper.Update | weibo_models/src/data_mining/cluster_related.cc:126-139 | the keeper takes the current sets unless their utility is below the maximum, as fresh copies |
| Clustering.BuildTable | weibo_models/src/data_mining/cluster_related.cc:164-176 | the double loop fills the table with exactly the id-ordered pairs and their similarities |
| Clustering.EraseRelated | weibo_models/src/data_mining/cluster_related.cc:196-203 | exactly the pairs with the removed set are erased |
| Clustering.UpdateRelated | weibo_models/src/data_mining/cluster_related.cc:206-214 | the pairs with the merged set are recomputed and nothing else changes |
| Clustering.PatchTable | weibo_models/src/data_mining/cluster_related.cc:196-214 | after a merge, erasing and recomputing restore a table equal to one built anew |
| Clustering.RemoveItemSet | weibo_models/src/data_mining/cluster_related.cc:192-193 | in the id-sorted list the search hits the set meant and removes it alone |
| Clustering.MergePair | weibo_models/src/data_mining/cluster_related.cc:188-193 | merging and removing leave exactly the item sets of the merged partition, sorted by id |
| Clustering.HierarchyClustering.AddItem | weibo_models/src/data_mining/cluster_related.cc:147-161 | in any state, also after moves, a set of the one item, with the list's length as id, joins the list where its id belongs; while collecting that is the end |
| Clustering.HierarchyClustering.Prepare | weibo_models/src/data_mining/cluster_related.cc:164-179 | table and keeper are set up for the partition into single items |
| Clustering.HierarchyClustering.SingleMove | weibo_models/src/data_mining/cluster_related.cc:182-220 | a most similar pair is merged, the run is one move longer, and list, table and keeper agree with recomputing them from it |
| Clustering.HierarchyClustering.MoveUntilStop | weibo_models/src/data_mining/cluster_related.cc:223-225 | moves end, with one set left, and the invariant holds throughout |
| Clustering.HierarchyClustering.GetClusterResults | weibo_models/src/data_mining/cluster_related.cc:228-248 | the results are the kept sets at increasing positions, and a position is among them exactly when ten times its set's items are at least all kept items |
| Clustering.Cluster | weibo_models/src/data_mining/cluster_related.cc:147-248 | for some complete run of n - 1 moves the results are the sets the keeper holds after it at increasing positions, exactly those with at least a tenth of all items, at most ten |
| Representatives.EvaluationBounds | weibo_models/src/data_mining/utils.cc:74-92 | on vectors without negative coordinates every score lies in [0, 2] |
| Representatives.EvaluationLaw | weibo_models/src/data_mining/utils.cc:74-92 | score and weighted cosines to the other sets add up to the own cosine and the other sets' share of the items, all times the number of items |
| Representatives.EvaluationOrder | weibo_models/src/data_mining/utils.cc:74-92 | of two items, the one no less similar to its set and no more similar to any other set never scores lower, and scores higher when it is strictly so for its set or for another set with items |
| Representatives.RankSorts | weibo_models/src/data_mining/utils.cc:65-94 | the multimap holds the scored items in non-increasing order of score |
| Representatives.RankOrder | weibo_models/src/data_mining/utils.cc:65-94 | the multimap holds the items by descending score and, among equal scores, the latest inserted first |
| Representatives.TakeIsGreatest | weibo_models/src/data_mining/utils.cc:97-106 | for size >= 1 the first min(size, n) in order are taken and none left out has a greater score; for a smaller size all are taken |
| Representatives.TopK | weibo_models/src/data_mining/utils.cc:57-107 | the first min(size, n) items, or all for a size below 1, in order of descending score, of equal scores the later item first; an item that is no less similar to its set and no more to any other, and somewhere strictly so, stands before |
| SubTopics.ChooseMessages | weibo_models/src/interface.cc:212-233 | of the messages with keywords exactly the first one of each text is chosen, in order, up to the 500th such message |
| SubTopics.ResultsSound | weibo_models/src/interface.cc:149-156 | every reported set has items, all of them given ones, and no negative coordinate |
| SubTopics.EntriesBounded | weibo_models/src/interface.cc:102-106 | the scores of a reported set's items against all reported sets lie in [0, 2] |
| SubTopics.GetRepresentingItems | weibo_models/src/interface.cc:102-106 | the representatives are the first min(10, n) of the set's own n items in order of score, and no item left out scores higher |
| SubTopics.StoreTables | weibo_models/src/interface.cc:149-173 | each reported set gets its representatives, all of them given items |
| SubTopics.StoreSubTopics | weibo_models/src/interface.cc:212-259 | from message vectors to tables: the reported sets, at most ten, are the large ones of some complete run over the chosen messages, and each is stored with its representatives, which are items of chosen messages |
| Cooccurrence.FeatureWords | DataProcess/src/singlepass/Cluster.cpp:84-92 | the kept words are the feature words of the post, with their repetitions |
| Cooccurrence.CountWith | DataProcess/src/singlepass/Cluster.cpp:104-122 | a row gains, for each other word, its number of occurrences in the post, and no entry of its own |
| Cooccurrence.CountPost | DataProcess/src/singlepass/Cluster.cpp:94-144 | after a post every entry off the diagonal has grown by the product of the two words' occurrences, through both branches |
| Cooccurrence.CountsStep | DataProcess/src/singlepass/Cluster.cpp:82-145 | one more post keeps the matrix equal to the closed form |
| Cooccurrence.CountsSymmetric | DataProcess/src/singlepass/Cluster.cpp:82-146 | the matrix is symmetric, and an entry is missing exactly when the two words never occur together |
| Cooccurrence.TogetherIsPairs | DataProcess/src/singlepass/Cluster.cpp:82-146 | what an entry counts is the number of pairs of an occurrence of the one word and one of the other in the same post |
| TopicClusters.Cluster.CalWordsCoccurrence | DataProcess/src/singlepass/Cluster.cpp:49-147 | after a scan each entry is the sum over all scanned posts of the product of the two words' counts, with nothing on the diagonal and no other entry |
| SinglePass.CalWordsTopicDistance | DataProcess/src/singlepass/Cluster.cpp:257-279 | the loop computes the average co-occurrence of the word with the topic's words, 0 without a row |
| SinglePass.NearestIsFirstClosest | DataProcess/src/singlepass/Cluster.cpp:196-206 | the chosen topic is the first no other is closer than, and no other index is |
| SinglePass.DistanceAverages | DataProcess/src/singlepass/Cluster.cpp:257-279 | the distance to a topic of one word is the two words' co-occurrence, and the distance to two topics taken together is the average of both, weighted by their sizes |
| SinglePass.PassPlaces | DataProcess/src/singlepass/Cluster.cpp:185-214 | the pass starts with the first word, and places each later word so among the topics of the words before it |
| TopicClusters.Cluster.FindNearest | DataProcess/src/singlepass/Cluster.cpp:196-206 | the scan from -1 finds that topic and its distance |
| TopicClusters.Cluster.PlaceWord | DataProcess/src/singlepass/Cluster.cpp:194-214 | a word below the threshold against every topic starts one; otherwise it is appended to the first topic of greatest average, and every other topic keeps its words |
| SinglePass.PassPartitions | DataProcess/src/singlepass/Cluster.cpp:184-215 | the topics together hold exactly the feature words |
| SinglePass.PassIsDense | DataProcess/src/singlepass/Cluster.cpp:208-214 | every word of a topic but the first has average co-occurrence of at least the threshold with the words before it |
| SinglePass.PassCohesion | DataProcess/src/singlepass/Cluster.cpp:184-215 | with the matrix of a scan, a topic of n words has total pairwise co-occurrence in the posts of at least n(n-1)/2 times the threshold |
| SinglePass.PairsBound | DataProcess/src/singlepass/Cluster.cpp:184-215 | the bound is n(n-1)/2 times the threshold |
| SinglePass.SeedsExactly | DataProcess/src/singlepass/Cluster.cpp:208-212 | a word starts a topic exactly when it was below the threshold against every topic existing then, or is the first word |
| TopicClusters.Cluster.Singlepass | DataProcess/src/singlepass/Cluster.cpp:170-249 | the topics are those of the pass, each listed with its posts, in descending order of message number |
| TopicClusters.Cluster.SortTopic | DataProcess/src/singlepass/Cluster.cpp:404-406 | sorting permutes the topics into descending order of message number |
| TopicIndex.EmptyIndex | DataProcess/src/singlepass/Cluster.cpp:290-299 | the index has exactly the words of the topics that are large enough |
| TopicIndex.FillIndex | DataProcess/src/singlepass/Cluster.cpp:306-329 | each indexed word gets exactly the keys of the posts that have it |
| TopicClusters.Cluster.MatchWeiboIDToTopic | DataProcess/src/singlepass/Cluster.cpp:285-344 | words of large enough topics are linked to exactly the posts that have them, those of others to none |
| TopicIndex.CountLinks | DataProcess/src/singlepass/Cluster.cpp:363-376 | each key is counted once for each distinct topic word linked to it |
| TopicIndex.ListEveryTopicWeiboId | DataProcess/src/singlepass/Cluster.cpp:356-401 | exactly the keys with enough linked words, each once with its number of words, are added to the topic's list, which is then sorted in non-increasing order; the message number is how many were added, and the list is cleared when they are too few |
| TopicIndex.LinksAgree | DataProcess/src/singlepass/Cluster.cpp:292-383 | counting through the index gives what counting words in the posts gives |
| TopicIndex.HitsOfPost | DataProcess/src/singlepass/Cluster.cpp:319-328 | with unique keys a key's number is the number of distinct topic words its post has |
| TopicIndex.ListedAgrees | DataProcess/src/singlepass/Cluster.cpp:356-401 | so a key is listed exactly when its post has at least max(1, BELONG_TOPIC_THROD) of the topic's words |
| TopicIndex.ListingSize | DataProcess/src/singlepass/Cluster.cpp:387 | the message number is the number of posts that belong to the topic |
| TopicClusters.Cluster.ListAllTopicWeiboId | DataProcess/src/singlepass/Cluster.cpp:349-355 | every topic is recorded with the exact number of its posts and, when that is above the minimum, exactly these |
| Sorting.Sort | DataProcess/src/singlepass/Cluster.cpp:392-393 | the result is a permutation in descending order |
| TopicBatches.SplitUndoesJoin | DataProcess/src/topic_summary/TopicViewAndPolitics.cpp:16-23 | splitting mid and table joined gives them back exactly when the mid has 16 characters |
| TopicBatches.JoinUndoesSplit | DataProcess/src/topic_summary/TopicViewAndPolitics.cpp:16-23 | joining the parts gives the key back, and only keys shorter than 16 cannot be split |
| TopicBatches.GroupKeepsOrder | DataProcess/src/topic_summary/TopicViewAndPolitics.cpp:124-131 | each table's list holds the mids of its keys in order |
| TopicBatches.MidsInOrder | DataProcess/src/topic_summary/TopicViewAndPolitics.cpp:124-131 | these are the first 16 characters of the keys at increasing positions, exactly the keys whose remaining characters name the table |
| TopicBatches.PushMid | DataProcess/src/topic_summary/TopicViewAndPolitics.cpp:119-131 | a key is split and its mid appended to its table's list |
| TopicBatches.BatchAt | DataProcess/src/topic_summary/TopicViewAndPolitics.cpp:153-167 | batch b holds, table by table and in order, the 10000 keys from number 10000 * b on or those left; only the first has flag 0 |
| TopicBatches.BatchesConserve | DataProcess/src/topic_summary/TopicViewAndPolitics.cpp:117-177 | together the batches hold every key exactly as often as it is listed |
| TopicBatches.RunEnds | DataProcess/src/topic_summary/TopicViewAndPolitics.cpp:92-179 | a kept topic with well-formed keys ends as trash exactly when judged so, and is stored completely otherwise |
| TopicBatches.RunIs | DataProcess/src/topic_summary/TopicViewAndPolitics.cpp:92-179 | how any run ends and after how many inserts: skipped for too few posts, as trash at the first count due, at the first key too short, or stored completely |
| TopicBatches.TrashInsertsNothing | DataProcess/src/topic_summary/TopicViewAndPolitics.cpp:132-151 | a trash topic leaves nothing in the database exactly when it is judged within its first 10000 posts |
| TopicBatches.SetNumberLeavesNoTrash | DataProcess/src/VirtualProjectMain.cpp:32 | with the number both programs set no trash topic leaves anything behind |
| TopicBatches.TrashInserted | DataProcess/src/topic_summary/TopicViewAndPolitics.cpp:132-167 | of any 10001 distinct posts, judged as trash at the last one, the first 10000 are in the database |
| TopicBatches.AnyKeysListed | DataProcess/src/singlepass/Cluster.cpp:356-401 | every list of distinct keys is the list of some recorded topic |
| TopicBatches.TrashTopicInserted | DataProcess/src/topic_summary/TopicViewAndPolitics.cpp:92-167 | a recorded topic of 10001 distinct posts whose trash verdict comes too late |
| TopicBatches.RelevantPostsStored | DataProcess/src/topic_summary/TopicViewAndPolitics.cpp:92-179 | of a kept and stored topic every post that belongs to it is inserted exactly once, and no other |
| TopicBatches.TopicViewAndPolitics.GetOneTopicWeiboByBatch | DataProcess/src/topic_summary/TopicViewAndPolitics.cpp:92-179 | the loop ends and inserts as the closed form says, on every path: too few posts, trash, a key too short, stored |
| TopicBatches.NothingBelow | DataProcess/src/topic_summary/TopicViewAndPolitics.cpp:42-49 | in descending order no topic after the first too small one would insert anything |
| TopicBatches.InsertsUpTo | DataProcess/src/topic_summary/TopicViewAndPolitics.cpp:42-49 | every topic makes its inserts in turn, up to the first with a key that cannot be split, which makes the last |
| TopicBatches.AllTopicsStored | DataProcess/src/topic_summary/TopicViewAndPolitics.cpp:42-179 | over all topics a post is inserted once for every kept topic, not judged trash, that it belongs to |
| TopicBatches.TopicViewAndPolitics.InsterAllTopicToDatabase | DataProcess/src/topic_summary/TopicViewAndPolitics.cpp:42-49 | so stopping there inserts what running over all topics would |
| Jaccard.Jaccard | DataProcess/src/coverage/coverage.cpp:284-301 | the find-and-erase loop counts the multiset intersection, and the result is its size over that of the union |
| Jaccard.CoefficientSymmetric | DataProcess/src/coverage/coverage.cpp:284-301 | the coefficient is symmetric although the loop is not |
| Jaccard.CoefficientBounds | DataProcess/src/coverage/coverage.cpp:284-301 | unless both texts are empty it lies in [0, 1] and is 1 exactly for permutations of the same characters |
| Jaccard.CoefficientIsRatio | DataProcess/src/coverage/coverage.cpp:284-301 | it is the size of the multiset intersection over that of the multiset union, and missing exactly for two empty texts |

## Left out

- Clustering.FindMaxSimilarity: which of several equally similar pairs is merged depends on pointer order in the source; any is allowed here, and every result holds for all choices.
- Clustering.HierarchyClustering.AddItem: what moves do to items added after `Prepare` is not modelled; their ids can repeat and the table has no entry for them until it is built again.
- RefCounts.RefCount.AddFingerPrint: additions after a count has wrapped to 0 are not modelled; the source then may return an uninitialised key. `FillCatalogues` keeps below the wrap for up to 2^32 - 1 posts.
- Bayes.Classifier.IsSpam: floating-point underflow of both products to 0 is not modelled.
- Representatives.TopK: a list of sets without any items beside a set that has some would give scores of 0/0; `Weighable` excludes exactly that.
- Vectors.EvaluateCosine: rounding, and with it a cosine slightly above 1, is not modelled.
- TopicClusters.Cluster.Singlepass: starts from an empty topic list and at least one feature word, as its callers do; without feature words the source would dereference the end of an empty map, and a second pass over the same topics would repeat words in them.
- TopicClusters.Cluster.CalWordsCoccurrence: the paging of posts out of the database is not modelled; the posts it yields are a parameter.
- TopicBatches.TopicViewAndPolitics.GetOneTopicWeiboByBatch: a batch is what is asked for and inserted; rows the database does not return, and its errors, are not modelled.
- FingerprintStore.Preprocessor.FlushCachedFingerprint: an insert that the database refuses is not modelled.
- `RefCount::GetRefCountDirectly`, which can create zero counts, is called by nothing and left out of the runs.
- `GenClusterThrod` and `GenRandomValue` draw on `rand` and `time`; the threshold they produce is a parameter.
- `EraseCo_ccur_matrix`, `MergeClusterList`, `BayesPool`, `Fuzzy` and `Persistence` are unused or incomplete.
- `PackupMessagePair` joins the text and keywords of a stored item into a row; only which items are stored is modelled.
- MySQL access, connection pools, table allocation, logging and file output are input and output.
- Word segmentation, TF-IDF keywords, topic views, the politics and trash classifiers, and the user, source and zombie tactics work on text or accounts and would only add easy members.
- The spiders, the web front end and vendored libraries are not part of this model.
