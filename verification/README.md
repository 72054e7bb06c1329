# Verified model of neural-sparse-cpp

A Dafny model of the sparse-vector search library `nsparse`: its exact inverted index (windowed MaxScore), the
approximate SEISMIC index (k-means clusters with max-pooled summaries), the batched build, and the disk-resident
index with its block-contiguous forward index and document directory. `dafny verify dfyconfig.toml` checks the
whole project.

Code that changes state keeps its form: scorers, heaps, posting-list windows, cluster stores, writers and cursors
are classes or methods over arrays, each proved against a specification function or predicate. What the library
promises is then stated about those specifications.

## How the proofs hang together

- **Scores.** `SparseDot.Dot` is the one definition of a score. Every fast path is tied to it: dense buffers
  (`Distance`), posting lists (`SparseVectors`), transposed summaries and centroids (`CountingSort`,
  `InvertedListClusters`, `KMeans`), and vectors read from mapped bytes (`DocDirectory`).
- **Answers.** `TopK.Answers` says what an exact padded answer is, up to ties: descending true scores, distinct
  ids, nothing left out that beats the last. `Ranker.Holds` is its invariant form: the heap has settled a set of
  documents. Every search loop keeps `Holds` while the settled set grows.
- **MaxScore.** `InvertedIndex` keeps one joint state over cursors, window scratch, bitmap, partition point and
  heap. `SearchStep` carries it over an iteration, `SearchBatch` over queries that share the scratch, and
  `BrutalIndex.InvertedMatchesBrutal` compares the result with the exhaustive search.
- **SEISMIC.** `Summaries.SummaryBounds` (a summary bounds its documents at alpha >= 1), the clustering theorem
  `KMeans.Train` and the loop theorem `SeismicIndex.SingleQuery` compose into `SeismicIndex.LosslessPruning` and
  `SeismicIndex.SeismicMatchesInverted`. Whatever the parameters, a query is a run (`SeismicIndex.IsRun`): a state of
  visited documents and heap taken from cluster to cluster, which says which clusters are scored and in what order.
  `SeismicReplies` says what a reply then means to the caller who gave the selector.
- **Build.** `TermWindows.MakeWindows` cuts greedily and bounds the postings of every window. Sorting, pruning, seeding, training and
  summarizing are each tied to a function of their input, so `SeismicIndex.SeismicIndex.Build` gives one function of corpus,
  parameters and seed, and `SpilledLists.BuildClusteredLists` gives it through the scratch file's bytes as well: the
  number of windows cannot be seen in the output.
- **Bytes.** `InlineFormat.Body` and `Streams.Encode` say what a file holds. Writers are proved to produce it,
  readers to accept exactly the well-formed inputs, and the round trips go up to a whole payload
  (`DiskIndexFile.PayloadRoundTrip`), whose mapped index finds every document's own row
  (`DocDirectory.GetDocIsRow`), meets the specification of the exact path (`DocDirectory.ExactMatch`), and answers
  every budgeted query with the scores a fresh index gives (`DiskSeismic.SearchedAlike`).

## What the code does not meet

These promises hold only under a condition. The code is modelled as it is, and the exact condition is proved.

- The brute-force, clustered and exact paths score through a dense buffer that keeps the last weight of a repeated query
  term, where the inverted index adds all of them: with positive weights they agree exactly on queries of distinct terms
  (`Distance.KeptWholeIffDistinct`, with `BrutalIndex.RepeatedTermDiffers`).
- The exact path for small id selectors does not drop repeated ids: `ExactMatcher.ExactIffNoRepeats`.
- The inline forward index writer does not check the list count its reader limits:
  `InlineRoundTrip.WrittenIsAccepted`, with `InlineRoundTrip.ManyEmptyLists` as the witness.
- A cluster list without summary terms loses its one-entry term pointer: `StoredIndexes.UnchangedIffTerms`.
- The copying readers also take what the mapped ones refuse: a file cut off where nothing but empty arrays is left, or
  a CSR whose rows are malformed. `Serialization.ListReadersAgree`, `Serialization.ListsReadersAgree`,
  `StoredIndexes.ClustersReadersAgree`, `StoredIndexes.SectionReadersAgree` and `StoredIndexes.VectorsReadersAgree`
  say exactly when they differ; `Serialization.TruncatedList`, `StoredIndexes.TruncatedSection`,
  `StoredIndexes.TruncatedVectors` and `StoredIndexes.MalformedVectors` show inputs.
- `decode_dot_product` scales by its own width for both quantizers, so its error bound holds exactly between equal
  widths: `ScalarQuantizer.DecodesIffSameWidth`, with `ScalarQuantizer.MixedWidthExample`. Both indexes give the query
  quantizer their own type (`nsparse/seismic_scalar_quantized_index.cpp:179`,
  `nsparse/disk_seismic_scalar_quantized_index.cpp:121`), so only a direct call can mix widths.

## Model

| member | source | states |
|---|---|---|
| Ranker.RunKeepsBest | nsparse/utils/ranker.h:58-72 | after any sequence of adds the holder holds min(k, n) of the offered items, as a sub-multiset, and no item it lacks scores above any item it holds |
| Ranker.OfferAscending | nsparse/utils/ranker.h:58-72 | an add keeps the heap in order and at min(k, size + 1) items, and the minimum of a full heap never falls |
| Ranker.OfferSettles | nsparse/utils/ranker.h:58-72 | a heap that is an exact answer for a set of documents is one for the set with a new document added at its true score |
| Ranker.DrainIsTopK | nsparse/utils/ranker.h:96-124 | draining such a heap lists an exact top-k of the set: descending true scores, distinct ids, nothing left out that beats the minimum |
| Ranker.TopKHolder.Add | nsparse/utils/ranker.h:58-72 | the heap and its threshold field after an add: the specified offer, the threshold being the minimum whenever the heap is full; a full heap stays full |
| Ranker.TopKHolder.TopKItemsDescending | nsparse/utils/ranker.h:110-124 | empties the heap into parallel rows, highest score first |
| Ranker.DedupeTopKHolder.Add | nsparse/utils/ranker.h:193-210 | when every id always comes with the same score: an id that is held changes nothing, any other is offered as to the plain heap; so the heap stays an exact top-k of the distinct ids offered so far, an evicted id that returns included |
| Ranker.DedupeTopKHolder.TopKDescendingWithScoresAndPadding | nsparse/utils/ranker.h:252-268 | drains the exact top-k of the distinct ids into rows of length k with both paddings |
| TopK.SameCandidatesSameScores | nsparse/brutal_index.cpp:75-96 | two exact answers over the same candidates carry the same score sequence, whatever ids broke the ties |
| TopK.PositivePart | nsparse/brutal_index.cpp:75-96 | an exact answer over the candidates above zero is the positive prefix of an exact answer over all candidates |
| TopK.WiderNeverLowers | nsparse/disk_seismic_search.cpp:178-196 | an answer over more candidates is no lower at any rank |
| SparseDot.DotSymmetric | nsparse/utils/distance.h:29-37 | summing over the entries of the query gives the same score as summing over those of the document |
| SparseDot.DotPositiveIffShared | nsparse/utils/distance.h:29-37 | with positive weights on both sides a score is positive if and only if a term is shared |
| Distance.Scatter | nsparse/seismic_index.cpp:241-244 | writing a query into a zero buffer leaves exactly the last weight of each of its terms there |
| Distance.KeptScoresLess | nsparse/seismic_index.cpp:241-244 | for non-negative weights, what the buffer drops of a repeated term never raises a score |
| Distance.KeptWholeIffDistinct | nsparse/seismic_index.cpp:241-244 | a query of positive weights scores every document alike through the buffer and by its entries if and only if no term repeats |
| Distance.ClearScatter | nsparse/seismic_index.cpp:262-266 | zeroing the touched dimensions leaves the whole buffer zero |
| Distance.DotProductDense | nsparse/utils/distance.h:29-37 | against a scattered query the loop computes the exact sparse dot product |
| SparseVectors.PostingsScore | nsparse/invlists/inverted_lists.cpp:220-270 | scoring a document through the posting list of a term gives what its own row gives for that term |
| SparseVectors.PostingsAscend | nsparse/inverted_index.cpp:283-291 | distinct terms in every row make every posting list strictly ascending by document |
| SparseVectors.PostingsMember | nsparse/invlists/inverted_lists.cpp:220-270 | a document is in the list of a term if and only if its row carries the term |
| InvertedLists.BuildInvertedLists | nsparse/invlists/inverted_lists.cpp:220-270 | succeeds if and only if every term is below the dimension, and then list t is column t of the corpus, documents ascending |
| InvertedLists.CountPostings | nsparse/invlists/inverted_lists.cpp:231-243 | the counting pass: postings per term, rejecting a term outside the dimension |
| InvertedLists.FillLists | nsparse/invlists/inverted_lists.cpp:245-261 | the filling pass gives every term its whole column |
| InvertedLists.MaxValue | nsparse/invlists/inverted_lists.cpp:117-125 | the largest stored value, never below zero |
| InvertedLists.PruneAndKeepDocIds | nsparse/invlists/inverted_lists.cpp:139-161 | keeps the documents of lambda postings of greatest value, in descending order of value, or all when there are no more than lambda; one function of the list |
| InvertedLists.PrunedMembers | nsparse/invlists/inverted_lists.cpp:139-161 | pruning keeps no document twice and none from outside the list |
| InvertedIndex.InvertedIndex.SingleQuery | nsparse/inverted_index.cpp:338-408 | the padded reply is the exact top-k of the admitted documents that score above zero, each with its full dot product; the window buffer is zero again |
| BrutalIndex.InvertedMatchesBrutal | nsparse/inverted_index.cpp:338-408 | for a query of distinct terms, rank by rank the inverted index returns the positive scores of the brute-force answer and pads exactly where that has none |
| BrutalIndex.RepeatedTermDiffers | nsparse/brutal_index.cpp:68-73 | a query that repeats a term: the inverted index scores 2, the brute-force buffer 1 |
| BrutalIndex.SingleQuery | nsparse/brutal_index.cpp:75-96 | scores every document and returns the exact top-k over all of them, padded; empty rows for an empty index |
| BrutalIndex.Search | nsparse/brutal_index.cpp:45-73 | every query of a batch gets the exact top-k under the weights its own buffer keeps |
| InvertedIndex.InvertedIndex.Search | nsparse/inverted_index.cpp:347-404 | the MaxScore loop drains into an exact top-k of the positive admitted documents with their true scores |
| InvertedIndex.InvertedIndex.SearchBatch | nsparse/inverted_index.cpp:297-336 | queries that reuse one window buffer and bitmap each get an exact reply: the scores a fresh buffer would give, the labels up to ties |
| InvertedIndex.InvertedIndex.Build | nsparse/inverted_index.cpp:266-295 | the lists are the columns of the corpus with their maxima; a term past the dimension fails and changes nothing |
| InvertedIndex.TermScoreBound | nsparse/inverted_index.cpp:137 | no document gets more from a term than query weight times the largest value of the list |
| InvertedIndex.PrefixBound | nsparse/inverted_index.cpp:148-151 | the leading terms together add at most their prefix sum of bounds to any document |
| InvertedIndex.SumPermutes | nsparse/inverted_index.cpp:143-146 | sorting the scorers by bound changes no score |
| InvertedIndex.DirectTermScorer.AdvanceTo | nsparse/inverted_index.cpp:81-99 | moves to the first posting at or past the cursor whose document is not below the target, skipping only smaller ones |
| InvertedIndex.LowerBound | nsparse/inverted_index.cpp:89-92 | the binary search: everything before the result is below the target, nothing from it on is |
| InvertedIndex.BuildScorers | nsparse/inverted_index.cpp:105-152 | joined terms in ascending order of bound, cursors on their first postings, and the prefix sums of the bounds |
| InvertedIndex.ContextHolds | nsparse/inverted_index.cpp:105-152 | the scorers built from an index and a non-negative query meet everything the search relies on |
| InvertedIndex.ScoreTerm | nsparse/inverted_index.cpp:161-178 | adds exactly the postings of the window into their slots and marks exactly the touched slots |
| InvertedIndex.ScoreEssentialTerms | nsparse/inverted_index.cpp:154-180 | from a zero window every slot holds its essential sum, every unmarked slot is zero, essential cursors stop at the window end, the others stay |
| InvertedIndex.AddNonEssential | nsparse/inverted_index.cpp:223-234 | the sum is the full score, or it was abandoned and both it and the full score are at most the threshold |
| InvertedIndex.OfferCandidate | nsparse/inverted_index.cpp:223-239 | the partial sum of an abandoned candidate is refused by the full heap, so a partial score never enters |
| InvertedIndex.SkipCandidate | nsparse/inverted_index.cpp:213-221 | a candidate whose bound is at most the threshold, or that is not admitted, can be skipped |
| InvertedIndex.EvaluateCandidate | nsparse/inverted_index.cpp:208-239 | settles one document, zeroes its slot only, and never lowers the threshold |
| InvertedIndex.TakeLowest | nsparse/inverted_index.cpp:197-206 | each step of the walk takes the lowest remaining set bit and clears no other |
| InvertedIndex.EvaluateWord | nsparse/inverted_index.cpp:195-240 | visits the set bits of a word in ascending order; the documents between them are settled unvisited |
| InvertedIndex.EvaluateWindowCandidates | nsparse/inverted_index.cpp:182-242 | settles every document of the window and leaves the window all zero; no cursor retreats |
| InvertedIndex.Partition | nsparse/inverted_index.cpp:368-378 | the longest run of leading terms whose prefix sums stay below the threshold |
| InvertedIndex.Repartition | nsparse/inverted_index.cpp:368-378 | a risen threshold only ever moves the partition point up, to the longest run of prefix sums below it |
| InvertedIndex.MinEssentialDoc | nsparse/inverted_index.cpp:380-390 | the smallest document under an essential cursor |
| InvertedIndex.SearchStep | nsparse/inverted_index.cpp:366-402 | one iteration: a full heap moves the partition point to the longest run of prefix sums below its threshold; threshold and partition point never fall, no cursor retreats, at least one essential posting is consumed, the frontier moves past its document, everything before the frontier is settled |
| InvertedIndex.RunSearch | nsparse/inverted_index.cpp:366-402 | the loop terminates with every document settled and the window zero |
| InvertedIndex.SettledAnswer | nsparse/inverted_index.cpp:404-407 | a heap that has settled every document drains into the exact answer |
| BitWords.ClearLowest | nsparse/inverted_index.cpp:203-205 | w & (w - 1) clears the lowest set bit and no other |
| BitWords.CountTrailingZeros | nsparse/inverted_index.cpp:203 | the index of the lowest set bit |
| CountingSort.Transpose | nsparse/cluster/inverted_list_clusters.cpp:274-294 | every entry lands in exactly one slot of the column of its term, rows ascending, and the column pointers delimit the columns |
| CountingSort.FillColumns | nsparse/cluster/inverted_list_clusters.cpp:281-294 | the cursor fill puts each entry into the next free slot of its column and never overruns it |
| CountingSort.AddColumn | nsparse/cluster/inverted_list_clusters.cpp:314-320 | adds weight times the column into the per-row sums |
| InvertedListClusters.InvertedListClusters.BuildTranspose | nsparse/cluster/inverted_list_clusters.cpp:237-300 | the stored columns are the transpose of the summaries over their distinct ascending terms |
| InvertedListClusters.InvertedListClusters.ScoreSummariesTransposed | nsparse/cluster/inverted_list_clusters.cpp:303-338 | scoring through the transpose gives, for each cluster, the dot product of its own summary with the query |
| InvertedListClusters.InvertedListClusters.Summarize | nsparse/cluster/inverted_list_clusters.cpp:222-235 | memberships stay, and the store holds a summary of every cluster |
| InvertedListClusters.InvertedListClusters.constructor | nsparse/cluster/inverted_list_clusters.cpp:195-210 | flattening the groups: cluster i is group i; no groups leave no offsets |
| InvertedListClusters.LowerBoundIn | nsparse/cluster/inverted_list_clusters.cpp:268-272 | the term lookup finds the first id that is not smaller |
| InvertedListClusters.TermColumnFinds | nsparse/cluster/inverted_list_clusters.cpp:268-272 | each summary term has its own column |
| InvertedListClusters.DistinctAscendingTerms | nsparse/cluster/inverted_list_clusters.cpp:261-266 | exactly the terms of the summaries, each once, ascending |
| Summaries.Touch | nsparse/cluster/inverted_list_clusters.cpp:98-114 | one entry folded into the stamped accumulator keeps it the pool of the entries so far, the running sum being its total |
| Summaries.FreshEpoch | nsparse/cluster/inverted_list_clusters.cpp:84-92 | a new epoch starts an empty pool whatever the buffers hold |
| Summaries.PoolingIsPool | nsparse/cluster/inverted_list_clusters.cpp:89-120 | the touched terms with their accumulated values are the fresh per-cluster map of term to max(0, values) |
| Summaries.CutPoint | nsparse/cluster/inverted_list_clusters.cpp:40-50 | the shortest descending prefix that holds alpha of the mass, everything when there is no mass |
| Summaries.EmitCluster | nsparse/cluster/inverted_list_clusters.cpp:38-65 | the emitted summary is that prefix of the pool, ascending by term; one function of the pool |
| Summaries.Summarize | nsparse/cluster/inverted_list_clusters.cpp:73-124 | with one accumulator that is never reset, each summary is what a fresh pool of its own cluster gives |
| Summaries.SummaryBounds | nsparse/cluster/inverted_list_clusters.cpp:38-124 | at alpha >= 1 a summary scores at least as high as each of its documents for every non-negative query |
| KMeans.RandomSelectInitialCentroids | nsparse/cluster/random_kmeans.cpp:28-51 | whatever the draws, n single-document clusters with distinct documents of the input, or none when more are asked for than exist; one function of the documents and the draws |
| KMeans.EverySelection | nsparse/cluster/random_kmeans.cpp:41-48 | every ordered choice of distinct documents is drawn as the seeds by some generator |
| KMeans.BoundaryCheck | nsparse/cluster/random_kmeans.cpp:53-63 | the request itself when it is in range, one cluster a document when it is larger, the integer square root of the documents when it is 0, and 1 without documents |
| KMeans.BuildCentroidIndex | nsparse/cluster/kmeans_utils.cpp:52-97 | the columns of the centroids up to their largest term, and none past it |
| KMeans.Similarities | nsparse/cluster/kmeans_utils.cpp:133-145 | accumulating over shared terms only gives the direct dot product with every centroid |
| KMeans.ArgMax | nsparse/cluster/kmeans_utils.cpp:146-155 | the lowest-indexed cluster that maximises the dot product |
| KMeans.NearestUnique | nsparse/cluster/kmeans_utils.cpp:146-155 | there is only one such cluster, so the assignment does not depend on how it is computed |
| KMeans.MapDocsToClusters | nsparse/cluster/kmeans_utils.cpp:108-158 | every non-centroid document is appended, in input order, to its nearest cluster; an empty seed cluster is an error |
| KMeans.Train | nsparse/cluster/random_kmeans.cpp:65-78 | one function of the documents and the draws; as many clusters as wanted, at most one a document, by default the integer square root of their number; for distinct documents: non-empty clusters that partition them, each headed by a distinct centroid, every other document in its nearest cluster |
| ClusteredLists.ClusterList | nsparse/seismic_common.cpp:238-261 | prune, cluster and summarize one posting list: one function of list, parameters and draws; a list that names each document once is partitioned by its clusters |
| ClusteredLists.SummarizeGroups | nsparse/cluster/inverted_list_clusters.cpp:195-235 | every group becomes a cluster with the summary of its own documents |
| Sorting.SortBy | nsparse/cluster/inverted_list_clusters.cpp:40-53 | a permutation in key order, and the same one for the same input |
| ClusteredLists.ClustersHoldTerm | nsparse/seismic_common.cpp:244-259 | when nothing is pruned, the clusters of a term hold exactly the documents that carry it |
| SeismicIndex.TopKTokens | nsparse/utils/vector_process.h:18-30 | all terms in query order when the cut does not bite, otherwise the cut heaviest terms, heaviest first; a cut that is not positive is then an error |
| SeismicIndex.ReorderClusters | nsparse/seismic_common.h:129-139 | cluster ids by descending summary score for the first list, as stored for the others |
| SeismicIndex.ScoreDocs | nsparse/seismic_index.cpp:94-116 | takes the documents in order: one not visited before is marked, and offered with its exact score if it is admitted |
| SeismicIndex.BreakFinishes | nsparse/seismic_index.cpp:78-85 | in descending order, one bound below the minimum of the full heap rules out every cluster after it |
| SeismicIndex.QuerySingleInvertedList | nsparse/seismic_index.cpp:53-118 | the first list is walked by descending summary score up to the first cluster that a full heap beats, a later list as stored, cluster by cluster, passing over exactly those that the heap left by the clusters before beats; either way every cluster has then been scored or its bound lies below the minimum of the full heap |
| SeismicIndex.TraceEnds | nsparse/seismic_index.cpp:78-85 | a sorted walk that stops at a beaten cluster, or any walk that came to its end, is such a walk |
| SeismicIndex.SingleQuery | nsparse/seismic_index.cpp:229-272 | the reply is drained from the state that walking the lists of the cut terms in order ends in: the first list that exists, with clusters or without, is walked sorted and broken off, every later one as stored; the state is an exact top-k of the visited documents, all clusters of the cut lists are finished, and the dense buffer is zero again |
| SeismicIndex.RunWalks | nsparse/seismic_index.cpp:250-260 | one more list continues the run: sorted if no earlier term had a list, as stored otherwise |
| SeismicIndex.EmptyListFirst | nsparse/seismic_index.cpp:59-63 | a list without clusters takes the turn of the first list all the same |
| SeismicIndex.StoredOrderShows | nsparse/seismic_index.cpp:53-118 | at the default alpha, an input whose answer is 2 or 1 by the order the clusters of the second list are stored in |
| SeismicIndex.LosslessPruning | nsparse/seismic_index.cpp:53-118 | at alpha >= 1, heap factor >= 1 and non-negative weights, repeated terms or not, the reply is the exact top-k over all admitted documents in the clusters of the cut terms |
| SeismicIndex.ReachedIffShared | nsparse/seismic_index.cpp:250-260 | an uncut query over unpruned lists reaches exactly the documents that share a term with it |
| SeismicIndex.SeismicMatchesInverted | nsparse/seismic_index.cpp:229-272 | with nothing approximated, a query of distinct terms and positive stored values and weights, the score row equals that of the inverted index |
| SeismicIndex.BuildLists | nsparse/seismic_common.cpp:265-306 | windowed or not, the built lists are what the clustering function makes of each posting list and global term; a term outside the dimension fails |
| SeismicIndex.SeismicIndex.Build | nsparse/seismic_index.cpp:144-148 | the lists are one function of corpus, parameters and seed, in which neither batch size nor spill shows; where no document repeats a term, every list is clustered as the given parameters ask; a term outside the dimension, or an empty corpus to spill, fails and leaves the index as it was |
| SeismicIndex.ResolvedAsGiven | nsparse/seismic_common.cpp:277-281 | resolved once against the corpus: an explicit lambda, beta and alpha stand, the default lambda is 160 or a share of a large corpus, the default beta a tenth of lambda rounded down |
| SeismicIndex.IntsAreSizeable | nsparse/seismic_common.h:61-67 | parameters of the width the fields have always resolve |
| SeismicIndex.SizesAsGiven | nsparse/seismic_common.cpp:248-256 | an explicit lambda above zero is how many documents a list keeps at most, 0 keeps all; an explicit beta above zero is how many clusters it is cut into, at most one a document; by default 160 documents in 16 clusters |
| SeismicIndex.SeismicIndex.Search | nsparse/seismic_index.cpp:150-218 | queries sharing one dense buffer each get their own reply, by the exact path or through the clusters, or empty rows from an index without documents; fails exactly when some query has a bad k or cut |
| SeismicReplies.LabelsSelected | nsparse/seismic_index.cpp:104-115 | every label of a reply that is not padding is a document the selector lets through: one of the listed ids, or one the filter accepts, at its exact score |
| SeismicReplies.ListedIsExact | nsparse/seismic_common.h:141-152 | a selector that names at most k ids, or any list when k is negative, is answered by the exact path alone; a reply then has a positive k and is the exact top-k of the listed documents if and only if none is named twice |
| SeismicReplies.WalkedOtherwise | nsparse/seismic_index.cpp:186-215 | every other selector is served from the clusters of the cut terms, admitting exactly the documents it lets through |
| SeismicReplies.SearchIsLossless | nsparse/seismic_index.cpp:150-218 | at alpha >= 1, heap factor >= 1 and non-negative weights, a search is the exact top-k over the documents of the cut clusters that the selector lets through |
| ExactMatcher.SingleQuery | nsparse/exact_matcher.h:23-47 | offers every existing selected id, in ascending order, with its exact score |
| ExactMatcher.OrderedIds | nsparse/id_selector.h:33-37 | the selected ids in ascending order, none added or dropped |
| ExactMatcher.ExactIffNoRepeats | nsparse/exact_matcher.h:23-47 | where the exact path runs, the reply is the exact top-k of the selected documents if and only if no existing document is selected twice, because the heap does not drop repeats |
| ExactMatcher.RepeatsFail | nsparse/exact_matcher.h:33-41 | a document named twice fills a rank an exact answer leaves empty |
| ExactMatcher.ExactReplyUnique | nsparse/exact_matcher.h:23-47 | two replies to the same ids, scores and k are identical, labels included |
| TermWindows.MakeWindows | nsparse/seismic_common.cpp:64-108 | exactly the asked number of non-empty contiguous ascending windows covering the terms; each but the last is the shortest run that meets an even share of what is left, one term being kept for each window to come; and none holds more postings, those that survive pruning counted sixteen times again, than the rounded-up even share plus one term |
| TermWindows.LoadInCounts | nsparse/seismic_common.cpp:67-76 | the total load is the postings plus sixteen times those that pruning leaves |
| TermWindows.TakeWindow | nsparse/seismic_common.cpp:86-102 | takes terms until the target is met and not one more, leaving one for each window to come |
| TermWindows.StepEven | nsparse/seismic_common.cpp:80-106 | what remains after a window is still no more than one even share per window left, so no subtraction goes below zero |
| BatchedBuild.CountPostingsPerTerm | nsparse/seismic_common.cpp:114-131 | postings per term, or an error for a term outside the dimension |
| BatchedBuild.WindowLists.Add | nsparse/seismic_common.cpp:157-170 | the posting goes into the next slot of its list; no slot left is an error |
| BatchedBuild.FillFromCorpus | nsparse/seismic_common.cpp:199-215 | one pass fills every slot of the window exactly and each list is the posting list of its term |
| BatchedBuild.ForEachClusteredWindow | nsparse/seismic_common.cpp:265-306 | one sink call per window, windows tiling the terms, each list clustered from its own postings and global term id |
| BatchedBuild.BuildInvertedListsClusters | nsparse/seismic_common.h:195-207 | the in-memory sink gives the lists of a single pass, whatever the batch size |
| SpilledLists.StreamClusteredLists | nsparse/seismic_batched_build.cpp:60-89 | the streamed bytes are the section of a single pass, lists in term order; the gap and count errors cannot fire on a corpus with documents |
| SpilledLists.SpillClusteredLists | nsparse/seismic_batched_build.cpp:145-171 | the mapped scratch file gives back the lists of a single pass, up to the term pointer of a store without terms; an empty corpus is an error |
| SpilledLists.BuildClusteredLists | nsparse/seismic_batched_build.cpp:134-143 | both ways of building give the lists of a single pass, whatever the batch size: the window count cannot be seen |
| BatchedBuild.CalculateLambda | nsparse/seismic_common.h:154-161 | an explicit lambda stands; the default is the share of the corpus rounded down, and never below 160 |
| BatchedBuild.CalculateBeta | nsparse/seismic_common.h:163-168 | an explicit beta stands; the default is the tenth of lambda, rounded toward zero |
| BatchedBuild.AsSize | nsparse/seismic_common.cpp:297-298 | a signed value as a size: itself, or 2^64 more when it is negative |
| Align.PaddingFor | nsparse/io/align.h:46-52 | the padding reaches the boundary and is less than one alignment; a zero width is an error |
| Bytes.AllZeroBytes | nsparse/io/align.h:54-60 | padding is zero bytes and nothing else |
| Align.AlignUp | nsparse/inline_forward_index.h:100-102 | the next multiple of the alignment, less than one alignment up |
| Align.AlignUpPads | nsparse/inline_forward_index.h:100-102 | rounding up is reached by exactly the padding the stream writers insert |
| InlineFormat.OffsetsFor | nsparse/inline_forward_index.h:120-131 | the arrays of a block do not overlap and its values are aligned |
| InlineFormat.OffsetsTight | nsparse/inline_forward_index.h:120-131 | count, ids, offsets and terms follow each other without a gap, and the values start on the first multiple of their width behind them |
| InlineFormat.FirstBlockTight | nsparse/io/inline_forward_index_io.cpp:222-229 | the first block starts on the first boundary behind the 24 bytes of the header |
| InlineWriter.MakeSource | nsparse/io/inline_forward_index_io.cpp:36-52 | a page layout needs a power of two, tested by its bits, that holds the header; a packed one aligns its blocks to 8 |
| InlineFormat.PowerOfTwoBits | nsparse/io/inline_forward_index_io.cpp:44-46 | n is a power of two if and only if it is not zero and n & (n - 1) is |
| InlineWriter.CountBlock | nsparse/io/inline_forward_index_io.cpp:99-125 | counts the components of a block, or rejects it: too many documents, a document out of range, too many components |
| InlineWriter.BlockLength | nsparse/inline_forward_index.h:120-131 | the sizing arithmetic is the length of the rendered block |
| InlineWriter.SectionLength | nsparse/io/inline_forward_index_io.cpp:127-163 | the sizing pass fails exactly when the write would, and otherwise gives the length of the body |
| InlineWriter.WriteBody | nsparse/io/inline_forward_index_io.cpp:191-328 | streams header, blocks with their padding, directory and trailer |
| InlineWriter.Serialize | nsparse/io/inline_forward_index_io.cpp:165-189 | the length prefix equals what the body then writes, so the final check is dead |
| InlineReader.LoadDirectory | nsparse/io/inline_forward_index_io.cpp:355-450 | accepts a section if and only if header, trailer, bounds, order and alignment hold, and loads its directory |
| InlineReader.EntryFound | nsparse/io/inline_forward_index_io.cpp:509-520 | over any accepted bytes, the entry at list start + block is that of (list, block): the mismatch branch is dead |
| InlineReader.ViewBlock | nsparse/io/inline_forward_index_io.cpp:456-500 | views a block if and only if its counts, lengths and offsets are consistent |
| InlineReader.ViewIsSafe | nsparse/io/inline_forward_index_io.cpp:456-500 | over any accepted bytes a view lies inside the section, is aligned for its element types and has non-decreasing offsets |
| InlineReader.Block | nsparse/io/inline_forward_index_io.cpp:509-520 | absent past the end of the list, otherwise the view of exactly that entry |
| InlineReader.BelowIsPrefix | nsparse/io/inline_forward_index_io.cpp:411-446 | in an ordered directory the entries of lower lists are exactly a prefix |
| InlineReader.EntryIsBlock | nsparse/io/inline_forward_index_io.cpp:413-446 | the b-th entry of a list is its block b |
| InlineReader.ListOffsetsAscend | nsparse/io/inline_forward_index_io.cpp:502-507 | list starts never fall |
| InlineReader.OffsetsRise | nsparse/io/inline_forward_index_io.cpp:480-490 | the checked neighbours make all offsets ordered and bounded by the component count |
| InlineRoundTrip.WrittenIsAccepted | nsparse/io/inline_forward_index_io.cpp:355-450 | a written section is accepted if and only if it names at most 65536 lists, and its directory reads back |
| InlineRoundTrip.ManyEmptyLists | nsparse/io/inline_forward_index_io.cpp:405-410 | an input that is written and then refused: no documents, more lists than that |
| InlineRoundTrip.BodyReads | nsparse/io/inline_forward_index_io.cpp:368-398 | header and trailer of a written body read back as written |
| InlineRoundTrip.EntryInBounds | nsparse/io/inline_forward_index_io.cpp:417-425 | every written directory entry passes the checks of the reader |
| InlineRoundTrip.WrittenBlock | nsparse/io/inline_forward_index_io.cpp:456-500 | a block in place passes the view checks and shows its documents in order, each with its own vector |
| MappedSection.MmapDeserialize | nsparse/io/inline_forward_index_io.cpp:337-353 | loads exactly the acceptable sections; the cursor ends just past the section |
| MappedSection.SectionFound | nsparse/io/inline_forward_index_io.cpp:165-189 | a section written at any stream offset is found there again, and reading ends where writing ended |
| MappedSection.BlockRoundTrip | nsparse/io/inline_forward_index_io.cpp:127-328 | for any lists, vectors, page size, layout and offset, block(pl, b) shows cluster b of list pl: its documents in order, each with its terms and values |
| MappedSection.FileRoundTrip | nsparse/io/inline_forward_index_io.cpp:337-353 | a file with the section anywhere in it loads if and only if at most 65536 lists are named |
| DocDirectory.WriteDocDirectory | nsparse/disk_seismic_index_base.cpp:218-271 | every document is led to: a slot that holds it, or its own row of the remainder |
| DocDirectory.CoverBlocks | nsparse/disk_seismic_index_base.cpp:223-247 | afterwards a document is covered if it is in any block, and then its locator names a slot of it |
| DocDirectory.GetDoc | nsparse/disk_seismic_index_base.cpp:329-352 | the vector a locator leads to; a locator that does not resolve to its document is an error |
| DocDirectory.GetDocIsRow | nsparse/disk_seismic_index_base.cpp:329-352 | after writing and mapping, get_doc gives for every document exactly its own row |
| DocDirectory.ExactMatch | nsparse/disk_seismic_index_base.cpp:354-422 | over a mapped index the exact path meets the very specification the in-memory matcher meets, and leaves the buffer zero |
| RemainderRows.AppendRows | nsparse/sparse_vectors.cpp:92-126 | appending the rows one call each gives the CSR of all rows |
| RemainderRows.RowsBack | nsparse/disk_seismic_index_base.cpp:332-342 | each row is cut out of that CSR unchanged |
| RemainderRows.RemainderStorable | nsparse/disk_seismic_index_base.cpp:250-271 | the remainder fits its fields and passes the validation of the mapped reader |
| DiskIndexFile.WriteDirectory | nsparse/disk_seismic_index_base.cpp:218-281 | the aligned count, the locator words and the remainder, in that order |
| DiskIndexFile.MapDirectory | nsparse/disk_seismic_index_base.cpp:306-317 | reads them back in that order; a count other than the vector count is an error |
| DiskIndexFile.DirectoryRoundTrip | nsparse/disk_seismic_index_base.cpp:306-317 | the directory comes back whole, for the right vector count and no other |
| DiskIndexFile.LocatorsRead | nsparse/disk_seismic_index_base.h:35-42 | three words a locator, read back in place |
| DiskIndexFile.WriteIndex | nsparse/disk_seismic_index_base.cpp:198-216 | count, summaries without memberships, forward index and directory, for lists with clusters and without; fails exactly when a summary store has no width or a block cannot be written |
| DiskIndexFile.LoadMappedPayload | nsparse/disk_seismic_index_base.cpp:293-327 | loads exactly the payloads whose parts load in the order written |
| DiskIndexFile.PayloadRoundTrip | nsparse/disk_seismic_index_base.cpp:198-327 | a payload written at any offset of an 8-aligned mapping loads if and only if it names at most 65536 lists, ends where it was written to, and gives the summaries and a forward index and directory of the same source |
| DiskSeismic.ListIsGrouped | nsparse/disk_seismic_index_base.cpp:223-249 | the stored form of every well-formed list, one without clusters included, can be written, and its blocks are the clusters of the list |
| DiskSeismic.RestoreLists | nsparse/io/seismic_invlists_writer.h:63-71 | the mapped stores become the lists of the index, field by field |
| DiskSeismic.StoreSurvives | nsparse/cluster/inverted_list_clusters.cpp:353-448 | a summary store written without its membership and mapped back is well formed and scores the summaries it was written from |
| DiskSeismic.SpilledListSurvives | nsparse/seismic_batched_build.cpp:165-170 | a spilled list mapped back has the clusters and summaries it was written with |
| DiskSeismic.FreshServes | nsparse/disk_seismic_search.cpp:79-90 | a fresh index serves the written blocks from memory |
| DiskSeismic.MappedServes | nsparse/disk_seismic_search.cpp:64-78 | the mapped index serves the same blocks from its forward index, under the same summaries |
| DiskSeismic.SearchedAlike | nsparse/disk_seismic_search.cpp:135-205 | written, mapped and searched: every query gets from the mapped index the scores the fresh one gives |
| DiskSearch.CandidateOrigin | nsparse/disk_seismic_search.cpp:156-172 | the candidates are exactly the blocks of the cut terms, each with the score of its own summary |
| DiskSearch.CollectCandidates | nsparse/disk_seismic_search.cpp:156-172 | the candidate list, list by list in cut order |
| DiskSearch.SelectBlocks | nsparse/disk_seismic_search.cpp:174-186 | as many blocks as the budget, none outscored by a block left out; one function of the candidates and the budget |
| DiskSearch.ScoreDoc | nsparse/disk_seismic_search.cpp:36-59 | a document is scored once, and only if admitted |
| DiskSearch.ScoreBlockInMemory | nsparse/disk_seismic_search.cpp:79-90 | a block scored from the in-memory vectors |
| DiskSearch.ScoreBlockOnDisk | nsparse/disk_seismic_search.cpp:64-78 | a block scored from the mapped index settles the same documents with the same scores |
| DiskSearch.BlockBudgetQuery | nsparse/disk_seismic_search.cpp:135-205 | the exact top-k of the distinct admitted documents in the selected blocks; a budget that is not negative selects that many blocks or all, and no unselected block outscores a selected one; a budget no less than the candidates, or negative with no more candidates than its 64-bit pattern, searches every block of the cut terms; the buffer is zero on exit |
| DiskSearch.CoveredRun | nsparse/disk_seismic_search.cpp:177-205 | a run whose budget covers the candidates is an exact top-k of all admitted documents in the blocks of the cut terms |
| DiskSearch.AllBlocks | nsparse/disk_seismic_search.cpp:156-172 | the candidates together hold the documents of all blocks of the cut terms and of no other |
| DiskSearch.FullBudget | nsparse/disk_seismic_search.cpp:177-186 | a budget that covers every candidate searches every document of the cut blocks, and conversely no other |
| DiskSearch.WiderSelection | nsparse/disk_seismic_search.cpp:178-196 | a selection that contains another answers no lower at any rank |
| DiskSearch.SameCandidates | nsparse/disk_seismic_search.cpp:156-172 | lists with the same summaries give the same candidates, whatever memberships they hold |
| DiskSearch.MappedEqualsFresh | nsparse/disk_seismic_search.cpp:64-205 | two runs of a query, over a mapped and over a fresh index with the same summaries, fail together or return the same scores |
| Streams.IOWriter.WritePadded | nsparse/io/align.h:84-92 | padding, written whether or not the array is empty, then the elements |
| Streams.BorrowPadded | nsparse/io/align.h:102-109 | the padded array borrowed in place, under the same errors as specified |
| Streams.IOReader.ReadPadded | nsparse/io/align.h:94-100 | the padded array copied out, under the same errors as specified |
| Streams.MmapCursor.ReadArray | nsparse/utils/mmap_cursor.h:50-69 | bounds checked by division, alignment by address; a failed read leaves the position |
| Streams.ReadsBack | nsparse/io/align.h:84-109 | every field written is found again by both readers, which end where it ends |
| Streams.PaddedAgrees | nsparse/io/align.h:94-109 | over any bytes, an array the mapped reader takes is the one the copying reader takes |
| Streams.PaddedDiffers | nsparse/io/align.h:94-109 | on an 8-aligned mapping they differ exactly where the padding of an empty array is cut off |
| Streams.PaddedWhole | nsparse/io/align.h:94-109 | on an 8-aligned mapping the mapped reader takes exactly the copied arrays that are in the stream to their end |
| Serialization.SerializeList | nsparse/invlists/inverted_lists.cpp:163-170 | count, ids, codes; a zero element width is an error |
| Serialization.DeserializeList | nsparse/invlists/inverted_lists.cpp:172-178 | the copying reader |
| Serialization.MapList | nsparse/invlists/inverted_lists.cpp:180-193 | the mapped reader |
| Serialization.BorrowedAligned | nsparse/invlists/inverted_lists.cpp:184-192 | values borrowed in place are all there and start on a boundary of their own width in memory, whatever that width |
| Serialization.ListRoundTrip | nsparse/invlists/inverted_lists.cpp:163-193 | at any offset both readers give the list back and consume exactly what was written |
| Serialization.ListReadersAgree | nsparse/invlists/inverted_lists.cpp:172-193 | over any bytes, a list the mapped reader accepts is the one copied; on an 8-aligned mapping it accepts exactly the copied lists that are all there with aligned values |
| Serialization.ListReadersDiffer | nsparse/invlists/inverted_lists.cpp:172-193 | for loadable widths the readers disagree exactly on an empty list whose bytes are cut short |
| Serialization.TruncatedList | nsparse/invlists/inverted_lists.cpp:172-193 | such an input: an empty stream |
| Serialization.ListsRoundTrip | nsparse/invlists/inverted_lists.cpp:272-314 | all lists come back in term order, by either reader |
| Serialization.ListsReadersAgree | nsparse/invlists/inverted_lists.cpp:282-314 | over any bytes on an 8-aligned mapping, the mapped reader accepts exactly the copied lists that are all there with aligned values, and gives the same |
| StoredIndexes.SerializeClusters | nsparse/cluster/inverted_list_clusters.cpp:340-387 | the membership, left empty in a summaries-only write, then the summary store |
| StoredIndexes.DeserializeClusters | nsparse/cluster/inverted_list_clusters.cpp:389-413 | the copying reader |
| StoredIndexes.MapClusters | nsparse/cluster/inverted_list_clusters.cpp:415-448 | the mapped reader |
| StoredIndexes.ClustersRoundTrip | nsparse/cluster/inverted_list_clusters.cpp:340-448 | at any offset both readers give the clusters back, the pointer of a store without terms being dropped |
| StoredIndexes.UnchangedIffTerms | nsparse/cluster/inverted_list_clusters.cpp:366-387 | the clusters come back unchanged if and only if there are summary terms or no pointer to lose |
| StoredIndexes.ClustersReadersAgree | nsparse/cluster/inverted_list_clusters.cpp:389-448 | over any bytes, clusters the mapped reader accepts are the ones copied; on an 8-aligned mapping it accepts exactly the copied ones that are all there with aligned values |
| StoredIndexes.WholeIffThere | nsparse/cluster/inverted_list_clusters.cpp:415-448 | for loadable widths being all there is enough |
| StoredIndexes.SerializeSection | nsparse/io/seismic_invlists_writer.h:40-51 | the list count, then every list in term order, with or without the memberships |
| StoredIndexes.DeserializeSection | nsparse/io/seismic_invlists_writer.h:52-59 | the copying reader of the section |
| StoredIndexes.MapSection | nsparse/io/seismic_invlists_writer.h:63-69 | the mapped reader of the section |
| StoredIndexes.SectionRoundTrip | nsparse/io/seismic_invlists_writer.h:40-69 | every list comes back in term order, by either reader, which stops where writing stopped |
| StoredIndexes.SectionReadersAgree | nsparse/io/seismic_invlists_writer.h:52-69 | over any bytes on an 8-aligned mapping, the mapped reader accepts exactly the copied sections that are all there with aligned values, and gives the same |
| StoredIndexes.TruncatedSection | nsparse/io/seismic_invlists_writer.h:52-69 | an input on which the readers differ: an empty stream |
| StoredIndexes.SpillRoundTrip | nsparse/seismic_batched_build.cpp:93-119 | a mapped spill reads back every list in term order |
| StoredIndexes.SerializeVectors | nsparse/sparse_vectors.cpp:206-231 | an empty matrix is one zero; otherwise counts, then the padded arrays |
| StoredIndexes.DeserializeVectors | nsparse/sparse_vectors.cpp:233-253 | the copying reader, without validation |
| StoredIndexes.MapVectors | nsparse/sparse_vectors.cpp:255-290 | the mapped reader with its validation |
| StoredIndexes.VectorsRoundTrip | nsparse/sparse_vectors.cpp:206-290 | the copying reader gives the vectors back; the mapped one if and only if they pass validation |
| StoredIndexes.VectorsReadersAgree | nsparse/sparse_vectors.cpp:233-290 | over any bytes on an 8-aligned mapping, the exact condition under which the mapped reader accepts what the copying one does, and that they then agree |
| StoredIndexes.TruncatedVectors | nsparse/sparse_vectors.cpp:233-290 | an input on which the readers differ: an empty stream |
| StoredIndexes.MalformedVectors | nsparse/sparse_vectors.cpp:64-73 | another: one row that claims to start behind its end |
| StoredIndexes.ValidateMapped | nsparse/sparse_vectors.cpp:28-83 | positive dimension, known width, offsets from zero that never fall |
| StoredIndexes.WriteIndexFile | nsparse/inverted_index.cpp:410-428 | count, lists and one padded array of maxima |
| StoredIndexes.ReadIndexFile | nsparse/inverted_index.cpp:430-453 | the copying reader; a maxima count other than the term count is an error |
| StoredIndexes.MapIndexFile | nsparse/inverted_index.cpp:455-482 | the mapped reader, from the offset of the payload on |
| StoredIndexes.IndexRoundTrip | nsparse/inverted_index.cpp:410-482 | an inverted index file loads, by either reader and unchanged, if and only if it has one maximum per term |
| ScalarQuantizer.MakeQuantizer | nsparse/utils/scalar_quantizer.h:32-44 | a quantizer needs finite bounds and a range of positive length |
| ScalarQuantizer.EncodeAll | nsparse/utils/scalar_quantizer.h:52-63 | encodes position by position |
| ScalarQuantizer.EncodeMonotone | nsparse/utils/scalar_quantizer.h:96-113 | larger values never get smaller codes, at both widths |
| ScalarQuantizer.CodeRoundTrip | nsparse/utils/scalar_quantizer.h:96-118 | encoding a decoded code gives the code |
| ScalarQuantizer.QuantizationError | nsparse/utils/scalar_quantizer.h:96-118 | the decoded value is within half a step of the clamped one |
| ScalarQuantizer.ScaleIffSameWidth | nsparse/utils/scalar_quantizer.h:85-93 | the decoding scale is the product of the steps if and only if both quantizers have the same width |
| ScalarQuantizer.StepError | nsparse/utils/scalar_quantizer.h:85-93 | for any two widths, the error with the product of the steps as scale |
| ScalarQuantizer.DotProductError | nsparse/utils/scalar_quantizer.h:85-93 | with both ranges from zero and inputs inside them, a decoded n-term dot product is off by at most n times a constant of the ranges and steps |
| ScalarQuantizer.DecodesIffSameWidth | nsparse/utils/scalar_quantizer.h:85-93 | that bound holds for all inputs in range if and only if both quantizers have the same width |
| ScalarQuantizer.MixedWidthFails | nsparse/utils/scalar_quantizer.h:85-93 | between widths the product of the two largest values is outside the bound |
| ScalarQuantizer.MixedWidthExample | nsparse/utils/scalar_quantizer.h:85-93 | 8-bit against 16-bit codes over [0, 1]: 1 times 1 decodes to 257 |

## Left out

- Floating point: scores and weights are exact reals, so rounding, NaN and infinities are not modelled; only the bounds
  a quantizer is made from may be infinite or not a number, which it refuses.
- The fractions 0.0005 and 0.1 of the default lambda and beta are exact; the conversion through `float` is not modelled.
- SIMD kernels, prefetching and the GPU paths: the scalar loop is the definition.
- OpenMP scheduling and the posting-list spinlock: one thread's sequence of queries or lists is modelled.
- Files, mappings, spill names and unlinking: a file is a byte sequence at an address, a reader or writer a position in it.
- Random numbers: the draws of the k-means seeding are an arbitrary function of the list's seed.
- Integer widths: document ids, offsets and counts are unbounded, and the bounds that matter are explicit
  (documents up to 2147479551 for the window end, 32- and 64-bit fields of the file formats, 16-bit term ids).
  A stored vector count of 2^64 - 1 is read as too large and does not wrap to an empty array.
- 16-bit cluster ids inside a list: the source asserts that a list has at most 65536 clusters.
- Index headers, `index_factory`, bindings, `IDMapIndex`, `csr_layout::convert` and buffer ownership.
- Selectors are predicates, or lists of ids where the exact path enumerates them.
- The scalar-quantized indexes and the two concrete disk indexes, with the quantization header and the width check
  of the quantized one: the same algorithms at another code width.
- Query terms past the dense buffer, which the source would write out of bounds: the buffered paths require terms below
  the dimension.
- Searching before anything is built, or with no queries at all, which return empty rows.
- Tie order of `std::priority_queue`, `std::sort` and `nth_element`: a queue keeps ties in one fixed order and a sort
  or selection is one fixed function of its input. That equal inputs come out equal is what the build and the mapped
  search rely on; every other result is stated up to ties.
- The lists a spilled build hands to the index are its own here; that they map back with the same memberships and
  summaries is `SpilledLists.SpillClusteredLists` with `DiskSeismic.SpilledListSurvives`.
- InvertedIndex.InvertedIndex.SingleQuery: query weights must not be negative and the terms of a row must be distinct, because the upper bounds and the single posting read per non-essential term rely on both.
- BrutalIndex.SingleQuery: stated for k > 0; for any other k the source looks at the top of an empty heap, which is undefined.
- BrutalIndex.Search: stated for k > 0, for the same reason.
- Streams.IOReader.ReadPadded: the scratch buffer the padding is read into is not modelled, nor is a failing allocation for a huge count.
- SpilledLists.SpillClusteredLists: the lists must fit the fields they are written to, which the types of the source guarantee; the scratch directory's existence check belongs to the file system.
- DocDirectory.WriteDocDirectory: list numbers must lie below the 32-bit mark that stands for the remainder.
- DiskIndexFile.WriteDirectory: list numbers must lie below the 32-bit mark that stands for the remainder.
