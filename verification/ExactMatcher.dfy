/** Scoring exactly the ids a selector enumerates. */
module ExactMatcher {
  import opened SparseDot
  import opened SparseVectors
  import opened TopK
  import opened Ranker
  import opened Distance
  import InvertedIndex
  import Sorting

  /** The ids that name a document of the index, in order. */
  function Existing(ids: seq<int>, n: nat): (docs: seq<nat>)
    ensures |docs| <= |ids| && forall i :: 0 <= i < |docs| ==> docs[i] < n
  {
    if ids == [] then []
    else
      var last := ids[|ids| - 1];
      Existing(ids[..|ids| - 1], n) + (if 0 <= last < n then [last] else [])
  }

  lemma {:induction false} ExistingMembers(ids: seq<int>, n: nat)
    ensures forall d: nat :: d in Existing(ids, n) <==> d in ids && d < n
  {
    if ids != [] {
      var init, last := ids[..|ids| - 1], ids[|ids| - 1];
      assert ids == init + [last];
      ExistingMembers(init, n);
    }
  }

  /** The selected documents. */
  ghost function Selected(ids: seq<int>, n: nat): (docs: set<nat>)
    ensures forall d: nat :: d in docs <==> d in ids && d < n
  {
    ExistingMembers(ids, n);
    set d | d in Existing(ids, n)
  }

  function Scored(ids: seq<nat>, all: seq<real>): (items: seq<Item>)
    requires forall i :: 0 <= i < |ids| ==> ids[i] < |all|
    ensures |items| == |ids| && forall i :: 0 <= i < |ids| ==> items[i] == Item(all[ids[i]], ids[i])
  {
    seq(|ids|, i requires 0 <= i < |ids| => Item(all[ids[i]], ids[i]))
  }

  /** The rows list a drained queue, padded to length k. */
  ghost predicate Lists(scores: seq<real>, labels: seq<int>, pq: seq<Item>, k: nat) {
    && |scores| == |labels| == k && |pq| <= k
    && (forall i :: 0 <= i < |pq| ==> scores[i] == BestFirst(pq)[i].score && labels[i] == BestFirst(pq)[i].id)
    && (forall i :: |pq| <= i < k ==> scores[i] == -1.0 && labels[i] == -1)
  }

  ghost predicate AscendingIds(ids: seq<int>) {
    forall i, j :: 0 <= i < j < |ids| ==> ids[i] <= ids[j]
  }

  /** The ids in ascending order, repeats kept (ordered_ids). */
  method OrderedIds(ids: seq<int>) returns (ordered: seq<int>)
    ensures multiset(ordered) == multiset(ids) && |ordered| == |ids| && AscendingIds(ordered)
  {
    ordered := Sorting.SortBy(ids, (id: int) => id as real);
    Sorting.SameSize(ordered, ids);
    forall i, j | 0 <= i < j < |ordered|
      ensures ordered[i] <= ordered[j]
    {
      assert ordered[i] as real <= ordered[j] as real;
    }
  }

  /** A list has only one ascending order. */
  lemma {:induction false} SameOrder(a: seq<int>, b: seq<int>)
    requires multiset(a) == multiset(b) && AscendingIds(a) && AscendingIds(b)
    ensures a == b
    decreases |a|
  {
    Sorting.SameSize(a, b);
    if a != [] {
      var init, last := a[..|a| - 1], a[|a| - 1];
      assert a == init + [last];
      LastIsGreatest(a, b);
      LastIsGreatest(b, a);
      assert b == b[..|b| - 1] + [last];
      SameRest(init, b[..|b| - 1], last);
      SameOrder(init, b[..|b| - 1]);
    }
  }

  lemma LastIsGreatest(a: seq<int>, b: seq<int>)
    requires multiset(a) == multiset(b) && AscendingIds(b) && |a| == |b| > 0
    ensures a[|a| - 1] <= b[|b| - 1]
  {
    assert a[|a| - 1] in multiset(b);
    var i :| 0 <= i < |b| && b[i] == a[|a| - 1];
  }

  lemma SameRest(a: seq<int>, b: seq<int>, last: int)
    requires multiset(a + [last]) == multiset(b + [last])
    ensures multiset(a) == multiset(b)
  {
    assert multiset(a) == multiset(a + [last]) - multiset{last};
    assert multiset(b) == multiset(b + [last]) - multiset{last};
  }

  /** The heap was offered each existing id once per mention, in ascending order. */
  ghost predicate IsExactReply(scores: seq<real>, labels: seq<int>, ids: seq<int>, all: seq<real>, k: nat) {
    k > 0 && exists ordered: seq<int> ::
      multiset(ordered) == multiset(ids) && |ordered| == |ids| && AscendingIds(ordered)
      && Lists(scores, labels, OfferAll(Scored(Existing(ordered, |all|), all), k), k)
  }

  method SingleQuery(csr: Csr, ids: seq<int>, dense: array<real>, k: nat, ghost query: Row)
    returns (scores: seq<real>, labels: seq<int>)
    requires csr.Valid() && k > 0
    requires forall d :: 0 <= d < csr.Count() ==> TermsBelow(csr.Row(d), dense.Length)
    requires Scattered(dense[..], query)
    ensures IsExactReply(scores, labels, ids, InvertedIndex.DocScores(csr.Rows(), query), k)
  {
    ghost var all := InvertedIndex.DocScores(csr.Rows(), query);
    var holder := new TopKHolder(k);
    var ordered := OrderedIds(ids);
    ghost var offered := Scored(Existing(ordered, |all|), all);
    FeedHolder(csr, ordered, dense, query, holder, all);
    hide TermsBelow, Scattered, Existing, OfferAll, Lists, AscendingIds;
    RunAscending(offered, k);
    scores, labels := DrainPadded(holder);
  }

  /** The drained queue as rows of length k. */
  method DrainPadded(holder: TopKHolder) returns (scores: seq<real>, labels: seq<int>)
    requires holder.Valid()
    modifies holder
    ensures Lists(scores, labels, old(holder.pq), holder.k)
  {
    var top, docs := holder.TopKItemsDescending();
    scores, labels := PadScores(top, holder.k), PadLabels(docs, holder.k);
  }

  lemma OfferOneMore(ordered: seq<int>, i: nat, all: seq<real>, k: nat)
    requires k > 0 && i < |ordered|
    ensures var was, now := Existing(ordered[..i], |all|), Existing(ordered[..i + 1], |all|);
            if 0 <= ordered[i] < |all|
            then OfferAll(Scored(now, all), k) == Offer(OfferAll(Scored(was, all), k), k, Item(all[ordered[i]], ordered[i]))
            else now == was
  {
    assert ordered[..i + 1][..i] == ordered[..i];
    var was, now := Existing(ordered[..i], |all|), Existing(ordered[..i + 1], |all|);
    if 0 <= ordered[i] < |all| {
      assert now == was + [ordered[i]];
      assert Scored(now, all)[..|was|] == Scored(was, all);
    }
  }

  /** Offers each existing id with its score. */
  method FeedHolder(csr: Csr, ordered: seq<int>, dense: array<real>, ghost query: Row, holder: TopKHolder, ghost all: seq<real>)
    requires csr.Valid() && all == InvertedIndex.DocScores(csr.Rows(), query)
    requires forall d :: 0 <= d < csr.Count() ==> TermsBelow(csr.Row(d), dense.Length)
    requires Scattered(dense[..], query)
    requires holder.Valid() && holder.pq == []
    modifies holder
    ensures holder.Valid() && holder.pq == OfferAll(Scored(Existing(ordered, |all|), all), holder.k)
  {
    assert holder.pq == OfferAll(Scored(Existing(ordered[..0], |all|), all), holder.k);
    hide TermsBelow, Scattered, Existing, OfferAll;
    for i := 0 to |ordered|
      invariant holder.Valid() && holder.pq == OfferAll(Scored(Existing(ordered[..i], |all|), all), holder.k)
    {
      var id := ordered[i];
      OfferOneMore(ordered, i, all, holder.k);
      if 0 <= id < csr.Count() {
        var score := DotProductDense(csr.Row(id), dense, query);
        holder.Add(score, id);
      }
    }
    assert ordered[..|ordered|] == ordered;
  }

  /**
   * Two exact replies to one question are the same, scores and labels: the reply depends on the
   * selected ids, the scores and k alone, wherever the vectors were read from.
   */
  lemma ExactReplyUnique(scores: seq<real>, labels: seq<int>, otherScores: seq<real>, otherLabels: seq<int>,
                         ids: seq<int>, all: seq<real>, k: nat)
    requires IsExactReply(scores, labels, ids, all, k) && IsExactReply(otherScores, otherLabels, ids, all, k)
    ensures scores == otherScores && labels == otherLabels
  {
    var a: seq<int> :| multiset(a) == multiset(ids) && |a| == |ids| && AscendingIds(a)
                       && Lists(scores, labels, OfferAll(Scored(Existing(a, |all|), all), k), k);
    var b: seq<int> :| multiset(b) == multiset(ids) && |b| == |ids| && AscendingIds(b)
                       && Lists(otherScores, otherLabels, OfferAll(Scored(Existing(b, |all|), all), k), k);
    SameOrder(a, b);
  }

  // ---------------------------------------------------------------- when the reply is a top-k

  ghost function AsSet(ids: seq<nat>): set<nat> {
    set d | d in ids
  }

  /** Offered once each, the ids are all settled. */
  lemma {:induction false} RunSettles(ids: seq<nat>, all: seq<real>, k: nat)
    requires k > 0 && Distinct(ids) && forall i :: 0 <= i < |ids| ==> ids[i] < |all|
    ensures Holds(OfferAll(Scored(ids, all), k), k, all, AsSet(ids))
  {
    if ids != [] {
      var init, last := ids[..|ids| - 1], ids[|ids| - 1];
      RunSettles(init, all, k);
      assert Scored(ids, all)[..|ids| - 1] == Scored(init, all);
      assert AsSet(ids) == AsSet(init) + {last};
      OfferSettles(OfferAll(Scored(init, all), k), k, all, AsSet(init), last);
    }
  }

  lemma {:induction false} RepeatsShrink(ids: seq<nat>)
    ensures |AsSet(ids)| <= |ids|
    ensures !Distinct(ids) ==> |AsSet(ids)| < |ids|
  {
    if ids != [] {
      var init, last := ids[..|ids| - 1], ids[|ids| - 1];
      RepeatsShrink(init);
      assert AsSet(ids) == AsSet(init) + {last};
      if Distinct(init) && !Distinct(ids) {
        assert last in init;
        assert AsSet(ids) == AsSet(init);
      }
    }
  }

  lemma {:induction false} DistinctExisting(a: seq<int>, b: seq<int>, n: nat)
    requires multiset(a) == multiset(b)
    ensures multiset(Existing(a, n)) == multiset(Existing(b, n))
  {
    forall d: nat
      ensures multiset(Existing(a, n))[d] == multiset(Existing(b, n))[d]
    {
      CountExisting(a, n, d);
      CountExisting(b, n, d);
    }
  }

  lemma {:induction false} CountExisting(ids: seq<int>, n: nat, d: nat)
    ensures multiset(Existing(ids, n))[d] == if d < n then multiset(ids)[d] else 0
  {
    if ids != [] {
      var init, last := ids[..|ids| - 1], ids[|ids| - 1];
      assert ids == init + [last];
      CountExisting(init, n, d);
    }
  }

  lemma SameDistinct(a: seq<nat>, b: seq<nat>)
    requires multiset(a) == multiset(b)
    ensures AsSet(a) == AsSet(b) && |a| == |b|
    ensures Distinct(a) <==> Distinct(b)
  {
    Sorting.SameSize(a, b);
    forall d: nat
      ensures d in a <==> d in b
    {
      assert d in multiset(a) <==> d in multiset(b);
    }
    assert AsSet(a) == AsSet(b);
    RepeatsShrink(a);
    RepeatsShrink(b);
    if Distinct(a) {
      DistinctCount(a);
    }
    if Distinct(b) {
      DistinctCount(b);
    }
  }

  lemma DistinctCount(ids: seq<nat>)
    requires Distinct(ids)
    ensures |AsSet(ids)| == |ids|
  {
    DistinctCardinality(ids);
    assert AsSet(ids) == set i | 0 <= i < |ids| :: ids[i];
  }

  /**
   * The exact path runs when a selector names at most k ids. Then the reply is the exact top-k of
   * the selected documents if and only if no existing document is named twice: the heap does not
   * deduplicate.
   */
  lemma ExactIffNoRepeats(scores: seq<real>, labels: seq<int>, ids: seq<int>, all: seq<real>, k: nat)
    requires IsExactReply(scores, labels, ids, all, k) && |ids| <= k
    ensures Answers(scores, labels, Selected(ids, |all|), all, k) <==> Distinct(Existing(ids, |all|))
  {
    var ordered: seq<int> :| multiset(ordered) == multiset(ids) && |ordered| == |ids| && AscendingIds(ordered)
                             && Lists(scores, labels, OfferAll(Scored(Existing(ordered, |all|), all), k), k);
    var docs := Existing(ordered, |all|);
    hide OfferAll, Existing, Lists, Answers;
    DistinctExisting(ordered, ids, |all|);
    SameDistinct(docs, Existing(ids, |all|));
    ExistingMembers(ids, |all|);
    assert Selected(ids, |all|) == AsSet(docs);
    if Distinct(docs) {
      DistinctAnswers(scores, labels, docs, all, k);
    } else {
      RepeatsFail(scores, labels, docs, all, k);
    }
  }

  /** A document offered twice fills a rank an exact answer would leave empty. */
  lemma RepeatsFail(scores: seq<real>, labels: seq<int>, docs: seq<nat>, all: seq<real>, k: nat)
    requires k > 0 && !Distinct(docs) && |docs| <= k && forall i :: 0 <= i < |docs| ==> docs[i] < |all|
    requires Lists(scores, labels, OfferAll(Scored(docs, all), k), k)
    ensures !Answers(scores, labels, AsSet(docs), all, k)
  {
    hide OfferAll;
    RepeatsShrink(docs);
    RunAscending(Scored(docs, all), k);
    if Answers(scores, labels, AsSet(docs), all, k) {
      var a :| IsTopK(a, AsSet(docs), all, k) && IsPaddedAnswer(scores, labels, a, all, k);
      hide IsPaddedAnswer;
      PaddingShows(scores, labels, a, all, k, |a|);
      assert false;
    }
  }

  lemma PaddingShows(scores: seq<real>, labels: seq<int>, a: seq<nat>, all: seq<real>, k: nat, i: nat)
    requires IsPaddedAnswer(scores, labels, a, all, k) && |a| <= i < k
    ensures labels[i] == -1
  {
  }

  /** For distinct ids the reply is exact at every k. */
  lemma DistinctAnswers(scores: seq<real>, labels: seq<int>, docs: seq<nat>, all: seq<real>, k: nat)
    requires k > 0 && Distinct(docs) && forall i :: 0 <= i < |docs| ==> docs[i] < |all|
    requires Lists(scores, labels, OfferAll(Scored(docs, all), k), k)
    ensures Answers(scores, labels, AsSet(docs), all, k)
  {
    var pq := OfferAll(Scored(docs, all), k);
    RunSettles(docs, all, k);
    DrainIsTopK(pq, k, all, AsSet(docs));
    IdsListItems(pq, k, all, AsSet(docs));
    assert IsPaddedAnswer(scores, labels, Ids(pq), all, k);
  }
}
