/** What a reply of the clustered index means to the caller who gave the selector. */
module SeismicReplies {
  import opened SparseDot
  import opened TopK
  import opened Ranker
  import opened SparseVectors
  import opened Distance
  import opened ClusteredLists
  import opened SeismicIndex
  import InvertedIndex
  import ExactMatcher

  // ---------------------------------------------------------------- only what was selected

  lemma WalkLabels(scores: seq<real>, labels: seq<int>, lists: seq<seq<Cluster>>, cuts: seq<nat>, query: Row,
                   heapFactor: real, isMember: nat -> bool, k: nat, all: seq<real>, i: nat)
    requires IsSeismicReply(scores, labels, lists, cuts, query, heapFactor, isMember, k, all)
    requires i < |labels| && labels[i] != -1
    ensures |scores| == |labels| && 0 <= labels[i] < |all| && isMember(labels[i]) && Reached(lists, cuts, labels[i]) && scores[i] == all[labels[i]]
  {
    var visited: set<nat>, pq: seq<Item> :|
      && Searched(lists, cuts, |cuts|, query, heapFactor, isMember, visited, pq, k, all)
      && IsRun(lists, cuts, |cuts|, WalkContext(query, heapFactor, isMember, k, all), State(visited, pq))
      && IsPaddedAnswer(scores, labels, Ids(pq), all, k);
    hide IsRun, Reached, ListsFinished;
    assert i < |pq|;
    assert Ids(pq)[i] == BestFirst(pq)[i].id && BestFirst(pq)[i] in pq;
  }

  lemma OfferedLabel(scores: seq<real>, labels: seq<int>, offered: seq<Item>, k: nat, i: nat) returns (j: nat)
    requires k > 0 && ExactMatcher.Lists(scores, labels, OfferAll(offered, k), k)
    requires i < |labels| && labels[i] != -1
    ensures |scores| == |labels| && j < |offered| && offered[j] == Item(scores[i], offered[j].id) && labels[i] == offered[j].id
  {
    hide OfferAll;
    var pq := OfferAll(offered, k);
    RunKeepsBest(offered, k);
    var x := BestFirst(pq)[i];
    assert x in multiset(pq) && x in multiset(offered);
    j :| 0 <= j < |offered| && offered[j] == x;
  }

  lemma ExactLabels(scores: seq<real>, labels: seq<int>, ids: seq<int>, all: seq<real>, k: nat, i: nat)
    requires ExactMatcher.IsExactReply(scores, labels, ids, all, k)
    requires i < |labels| && labels[i] != -1
    ensures |scores| == |labels| && 0 <= labels[i] < |all| && labels[i] in ids && scores[i] == all[labels[i]]
  {
    hide ExactMatcher.Existing, OfferAll, ExactMatcher.Lists;
    var ordered: seq<int> :|
      && multiset(ordered) == multiset(ids) && |ordered| == |ids| && ExactMatcher.AscendingIds(ordered)
      && ExactMatcher.Lists(scores, labels, OfferAll(ExactMatcher.Scored(ExactMatcher.Existing(ordered, |all|), all), k), k);
    var docs := ExactMatcher.Existing(ordered, |all|);
    var j := OfferedLabel(scores, labels, ExactMatcher.Scored(docs, all), k, i);
    ExactMatcher.ExistingMembers(ordered, |all|);
    assert docs[j] in ordered;
    assert docs[j] in multiset(ordered);
  }

  /** Every label of a reply that is not padding names a document the selector lets through, at its true score. */
  lemma LabelsSelected(reply: (seq<real>, seq<int>), rows: seq<Row>, lists: seq<seq<Cluster>>, query: Row, p: SearchParameters, i: nat)
    requires IsIndexReply(reply, rows, lists, query, p)
    requires i < |reply.1| && reply.1[i] != -1
    ensures 0 <= reply.1[i] < |rows|
    ensures match p.selector
            case Everything => true
            case Listed(ids) => reply.1[i] in ids
            case Filter(isMember) => isMember(reply.1[i])
    ensures i < |reply.0| && reply.0[i] == Dot(rows[reply.1[i]], LastWeights(query))
  {
    hide IsSeismicReply, ExactMatcher.IsExactReply, Dot, LastWeights, IsCutOf;
    var all := InvertedIndex.DocScores(rows, LastWeights(query));
    if ShouldRunExactMatch(p.selector, p.k) {
      ExactLabels(reply.0, reply.1, p.selector.ids, all, p.k, i);
    } else {
      var cuts: seq<nat> :| IsCutOf(cuts, query, p.cut)
        && IsSeismicReply(reply.0, reply.1, lists, cuts, query, p.heapFactor, IsMember(p.selector), p.k, all);
      WalkLabels(reply.0, reply.1, lists, cuts, query, p.heapFactor, IsMember(p.selector), p.k, all, i);
    }
  }

  // ---------------------------------------------------------------- which path answers

  /** A selector that names at most k ids is answered exactly, or k is not positive and the query fails. */
  lemma ListedIsExact(reply: (seq<real>, seq<int>), rows: seq<Row>, lists: seq<seq<Cluster>>, query: Row, p: SearchParameters)
    requires IsIndexReply(reply, rows, lists, query, p)
    requires p.selector.Listed? && (p.k < 0 || |p.selector.ids| <= p.k)
    ensures p.k > 0
    ensures var ids, all := p.selector.ids, InvertedIndex.DocScores(rows, LastWeights(query));
            && ExactMatcher.IsExactReply(reply.0, reply.1, ids, all, p.k)
            && (Answers(reply.0, reply.1, (set d: nat | d in ids && d < |rows|), all, p.k)
                <==> Distinct(ExactMatcher.Existing(ids, |rows|)))
  {
    hide ExactMatcher.IsExactReply, IsSeismicReply, ExactMatcher.Existing, Answers, LastWeights;
    var ids, all := p.selector.ids, InvertedIndex.DocScores(rows, LastWeights(query));
    ExactMatcher.ExactIffNoRepeats(reply.0, reply.1, ids, all, p.k);
    assert ExactMatcher.Selected(ids, |rows|) == set d: nat | d in ids && d < |rows|;
  }

  /** Every other selector is answered from the clusters, with the documents it lets through admitted and no other. */
  lemma WalkedOtherwise(reply: (seq<real>, seq<int>), rows: seq<Row>, lists: seq<seq<Cluster>>, query: Row, p: SearchParameters)
    returns (cuts: seq<nat>, isMember: nat -> bool)
    requires IsIndexReply(reply, rows, lists, query, p) && rows != []
    requires p.selector.Listed? ==> 0 <= p.k < |p.selector.ids|
    ensures p.k > 0 && IsCutOf(cuts, query, p.cut)
    ensures forall d :: isMember(d) <==> Selects(p.selector, d)
    ensures IsSeismicReply(reply.0, reply.1, lists, cuts, query, p.heapFactor, isMember, p.k,
                           InvertedIndex.DocScores(rows, LastWeights(query)))
  {
    hide IsSeismicReply, IsCutOf, LastWeights;
    isMember := IsMember(p.selector);
    cuts :| IsCutOf(cuts, query, p.cut)
      && IsSeismicReply(reply.0, reply.1, lists, cuts, query, p.heapFactor, isMember, p.k,
                        InvertedIndex.DocScores(rows, LastWeights(query)));
  }

  /** The documents in the clusters of the cut terms that the selector lets through. */
  ghost function SelectedAmong(selector: Selector, lists: seq<seq<Cluster>>, cuts: seq<nat>, n: nat): set<nat> {
    set d: nat | d < n && Reached(lists, cuts, d) && Selects(selector, d)
  }

  /**
   * With full summaries and no relaxation, the search of an index is the exact top-k over the
   * selected documents in the clusters of the cut terms.
   */
  lemma SearchIsLossless(reply: (seq<real>, seq<int>), rows: seq<Row>, lists: seq<seq<Cluster>>, query: Row, p: SearchParameters, alpha: real)
    returns (cuts: seq<nat>)
    requires IsIndexReply(reply, rows, lists, query, p) && rows != []
    requires p.selector.Listed? ==> 0 <= p.k < |p.selector.ids|
    requires alpha >= 1.0 && p.heapFactor >= 1.0 && NonNegative(query) && DistinctRows(rows)
    requires forall t :: 0 <= t < |lists| ==> Summarized(lists[t], rows, alpha)
    ensures p.k > 0 && IsCutOf(cuts, query, p.cut)
    ensures Answers(reply.0, reply.1, SelectedAmong(p.selector, lists, cuts, |rows|),
                    InvertedIndex.DocScores(rows, LastWeights(query)), p.k)
  {
    hide IsIndexReply, IsSeismicReply, IsCutOf, Summarized, Answers, LastWeights, Reached;
    var isMember;
    cuts, isMember := WalkedOtherwise(reply, rows, lists, query, p);
    LosslessPruning(reply.0, reply.1, lists, cuts, query, p.heapFactor, isMember, p.k, rows, alpha);
    assert SelectedAmong(p.selector, lists, cuts, |rows|) == Candidates(lists, cuts, isMember, |rows|);
  }
}
