/** The brute-force search every exact path is measured against. */
module BrutalIndex {
  import opened SparseDot
  import opened SparseVectors
  import opened TopK
  import opened Ranker
  import opened Distance
  import opened InvertedIndex

  ghost function AllDocs(n: nat): (docs: set<nat>)
    ensures forall d: nat :: d in docs <==> d < n
  {
    if n == 0 then {} else AllDocs(n - 1) + {n - 1}
  }

  /** Scores every document against a dense buffer that holds the query, and keeps the k best. */
  method SingleQuery(csr: Csr, dense: array<real>, k: nat, ghost query: Row)
    returns (scores: seq<real>, labels: seq<int>)
    requires csr.Valid() && k > 0
    requires forall d :: 0 <= d < csr.Count() ==> TermsBelow(csr.Row(d), dense.Length)
    requires Scattered(dense[..], query)
    ensures csr.Count() == 0 ==> scores == [] && labels == []
    ensures csr.Count() > 0 ==>
              Answers(scores, labels, AllDocs(csr.Count()), DocScores(csr.Rows(), query), k)
  {
    ghost var all := DocScores(csr.Rows(), query);
    var holder := new DedupeTopKHolder(k, all);
    var numDocs := csr.Count();
    if numDocs == 0 {
      return [], [];
    }
    for i := 0 to numDocs
      invariant holder.Valid() && holder.k == k && holder.all == all
      invariant holder.offered == AllDocs(i)
    {
      var score := DotProductDense(csr.Row(i), dense, query);
      holder.Add(score, i);
    }
    ghost var pq := holder.pq;
    labels, scores := holder.TopKDescendingWithScoresAndPadding(-1, -1.0);
    assert IsPaddedAnswer(scores, labels, Ids(pq), all, k);
  }

  /** A batch of queries, each in a buffer of its own, which keeps the last weight of a term that repeats. */
  method Search(csr: Csr, dim: nat, queries: seq<Row>, k: nat) returns (replies: seq<(seq<real>, seq<int>)>)
    requires csr.Valid() && k > 0
    requires forall d :: 0 <= d < csr.Count() ==> TermsBelow(csr.Row(d), dim)
    requires forall q :: 0 <= q < |queries| ==> TermsBelow(queries[q], dim)
    ensures |replies| == |queries|
    ensures forall q :: 0 <= q < |queries| ==> IsBruteReply(replies[q], csr.Rows(), queries[q], k)
  {
    hide TermsBelow, Scattered, Answers;
    replies := [];
    for q := 0 to |queries|
      invariant |replies| == q
      invariant forall j :: 0 <= j < q ==> IsBruteReply(replies[j], csr.Rows(), queries[j], k)
    {
      var dense := new real[dim](_ => 0.0);
      assert AllZero(dense[..]);
      Scatter(dense, queries[q]);
      var scores, labels := SingleQuery(csr, dense, k, LastWeights(queries[q]));
      replies := replies + [(scores, labels)];
    }
  }

  /** An exact answer over all documents, or empty rows over none. */
  ghost predicate IsBruteReply(reply: (seq<real>, seq<int>), rows: seq<Row>, query: Row, k: nat) {
    if rows == [] then reply == ([], [])
    else Answers(reply.0, reply.1, AllDocs(|rows|), DocScores(rows, LastWeights(query)), k)
  }

  /**
   * For a query of distinct terms the inverted index returns exactly the positive scores of the
   * brute-force answer, rank by rank, and pads from the first rank that has none.
   */
  lemma InvertedMatchesBrutal(rows: seq<Row>, query: Row, k: nat,
                              scores: seq<real>, labels: seq<int>, bruteScores: seq<real>, bruteLabels: seq<int>)
    requires rows != [] && DistinctTerms(query) && IsBruteReply((bruteScores, bruteLabels), rows, query, k)
    requires var all := DocScores(rows, query); Answers(scores, labels, PositiveOf(Members(all, _ => true), all), all, k)
    ensures |scores| == |labels| == |bruteScores| == k
    ensures forall i :: 0 <= i < k && bruteScores[i] > 0.0 ==> scores[i] == bruteScores[i] && labels[i] >= 0
    ensures forall i :: 0 <= i < k && bruteScores[i] <= 0.0 ==> scores[i] == -1.0 && labels[i] == -1
  {
    LastWeightsDistinct(query);
    var all := DocScores(rows, query);
    assert Members(all, _ => true) == AllDocs(|rows|);
    PositiveAnswersAgree(scores, labels, bruteScores, bruteLabels, AllDocs(|rows|), all, k);
  }

  /** A term twice in the query: the inverted index adds both weights, the brute-force buffer keeps one. */
  lemma RepeatedTermDiffers()
    ensures var rows, query := [[Entry(0, 1.0)]], [Entry(0, 1.0), Entry(0, 1.0)];
            DocScores(rows, query) == [2.0] && DocScores(rows, LastWeights(query)) == [1.0]
  {
    var e, query := Entry(0, 1.0), [Entry(0, 1.0), Entry(0, 1.0)];
    assert query[..1] == [e] && [e][..0] == [];
    DotOfOne(e, query);
    DotOfOne(e, LastWeights(query));
    LastWeightsAt([e], e, 0);
    assert [e] + [e] == query;
  }
}
