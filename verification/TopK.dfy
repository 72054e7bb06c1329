/**
 * What an exact top-k answer is, independently of how it was found. Ties are left open: the
 * library's heaps do not order equal scores by id.
 */
module TopK {

  ghost predicate Distinct(ids: seq<nat>) {
    forall i, j :: 0 <= i < j < |ids| ==> ids[i] != ids[j]
  }

  function Min(a: nat, b: nat): nat {
    if a <= b then a else b
  }

  /**
   * `ids` lists, best first, the k best of `candidates` (all of them when there are fewer than k),
   * where all[d] is the true score of document d.
   */
  ghost predicate IsTopK(ids: seq<nat>, candidates: set<nat>, all: seq<real>, k: nat) {
    && (forall d :: d in candidates ==> d < |all|)
    && Distinct(ids)
    && (forall i :: 0 <= i < |ids| ==> ids[i] in candidates)
    && |ids| == Min(k, |candidates|)
    && (forall i, j :: 0 <= i < j < |ids| ==> all[ids[i]] >= all[ids[j]])
    && (forall d, i :: d in candidates && d !in ids && 0 <= i < |ids| ==> all[d] <= all[ids[i]])
  }

  /** The score and label rows a search returns: the answer, then (-1.0, -1) up to length k. */
  ghost predicate IsPaddedAnswer(scores: seq<real>, labels: seq<int>, ids: seq<nat>, all: seq<real>, k: nat) {
    && |ids| <= k == |scores| == |labels|
    && (forall i :: 0 <= i < |ids| ==> ids[i] < |all| && labels[i] == ids[i] && scores[i] == all[ids[i]])
    && (forall i :: |ids| <= i < k ==> labels[i] == -1 && scores[i] == -1.0)
  }

  /** Score and label rows of length k that carry an exact top-k of the candidates. */
  ghost predicate Answers(scores: seq<real>, labels: seq<int>, candidates: set<nat>, all: seq<real>, k: nat) {
    exists ids: seq<nat> :: IsTopK(ids, candidates, all, k) && IsPaddedAnswer(scores, labels, ids, all, k)
  }

  /** Truncates nothing, pads to length k (resize with -1.0 and INVALID_IDX). */
  function PadScores(scores: seq<real>, k: nat): seq<real>
    requires |scores| <= k
  {
    scores + seq(k - |scores|, _ => -1.0)
  }

  function PadLabels(ids: seq<nat>, k: nat): seq<int>
    requires |ids| <= k
  {
    seq(|ids|, i requires 0 <= i < |ids| => ids[i] as int) + seq(k - |ids|, _ => -1)
  }

  lemma PaddedAnswer(scores: seq<real>, ids: seq<nat>, candidates: set<nat>, all: seq<real>, k: nat)
    requires IsTopK(ids, candidates, all, k) && |scores| == |ids|
    requires forall i :: 0 <= i < |ids| ==> ids[i] < |all| && scores[i] == all[ids[i]]
    ensures Answers(PadScores(scores, k), PadLabels(ids, k), candidates, all, k)
  {
    assert IsPaddedAnswer(PadScores(scores, k), PadLabels(ids, k), ids, all, k);
  }

  lemma {:induction false} DistinctCardinality(ids: seq<nat>)
    requires Distinct(ids)
    ensures |set i | 0 <= i < |ids| :: ids[i]| == |ids|
  {
    var s := set i | 0 <= i < |ids| :: ids[i];
    if ids != [] {
      var init, last := ids[..|ids| - 1], ids[|ids| - 1];
      DistinctCardinality(init);
      var t := set i | 0 <= i < |init| :: init[i];
      assert forall i :: 0 <= i < |init| ==> init[i] == ids[i];
      assert s == t + {last} by {
        forall x | x in s ensures x in t + {last} {
          var i :| 0 <= i < |ids| && ids[i] == x;
          assert i < |init| ==> init[i] in t;
        }
      }
    }
  }

  /** A list of distinct ids drawn from a set is no longer than the set is large. */
  lemma DistinctFits(ids: seq<nat>, pool: set<nat>)
    requires Distinct(ids) && forall i :: 0 <= i < |ids| ==> ids[i] in pool
    ensures |ids| <= |pool|
  {
    var s := set i | 0 <= i < |ids| :: ids[i];
    DistinctCardinality(ids);
    Subset(s, pool);
  }

  lemma {:induction false} Subset(s: set<nat>, t: set<nat>)
    requires s <= t
    ensures |s| <= |t|
    decreases s
  {
    if x :| x in s {
      Subset(s - {x}, t - {x});
    }
  }

  /** At most n distinct ids occur among the first n entries of a list. */
  lemma Pigeonhole(few: seq<nat>, many: seq<nat>)
    requires Distinct(many) && |few| < |many|
    ensures exists i :: 0 <= i < |many| && many[i] !in few
  {
    if forall i :: 0 <= i < |many| ==> many[i] in few {
      var pool := set i | 0 <= i < |few| :: few[i];
      DistinctFits(many, pool);
      SeqSetSize(few);
    }
  }

  lemma {:induction false} SeqSetSize(ids: seq<nat>)
    ensures |set i | 0 <= i < |ids| :: ids[i]| <= |ids|
  {
    if ids != [] {
      var init, last := ids[..|ids| - 1], ids[|ids| - 1];
      SeqSetSize(init);
      var t := set i | 0 <= i < |init| :: init[i];
      assert forall i :: 0 <= i < |init| ==> init[i] == ids[i];
      assert (set i | 0 <= i < |ids| :: ids[i]) <= t + {last};
      Subset(set i | 0 <= i < |ids| :: ids[i], t + {last});
    }
  }

  /**
   * If every candidate of `wide` outside `narrow` scores strictly below all of `narrow`, an answer
   * over `narrow` carries the leading scores of any answer over `wide`, and what `wide` returns
   * beyond them lies outside `narrow`.
   */
  lemma LeadingScoresAgree(a: seq<nat>, narrow: set<nat>, b: seq<nat>, wide: set<nat>, all: seq<real>, k: nat)
    requires IsTopK(a, narrow, all, k) && IsTopK(b, wide, all, k)
    requires narrow <= wide
    requires forall d, e :: d in wide - narrow && e in narrow ==> all[d] < all[e]
    ensures |a| <= |b|
    ensures forall j :: 0 <= j < |a| ==> all[a[j]] == all[b[j]]
    ensures forall j :: |a| <= j < |b| ==> b[j] !in narrow
  {
    Subset(narrow, wide);
    forall j | 0 <= j < |a|
      ensures all[a[j]] == all[b[j]]
    {
      RankNotBelow(a, narrow, b, wide, all, k, j);
      RankNotAbove(a, narrow, b, wide, all, k, j);
    }
    forall j | |a| <= j < |b|
      ensures b[j] !in narrow
    {
      TailOutside(a, narrow, b, wide, all, k, j);
    }
  }

  lemma RankNotBelow(a: seq<nat>, narrow: set<nat>, b: seq<nat>, wide: set<nat>, all: seq<real>, k: nat, j: nat)
    requires IsTopK(a, narrow, all, k) && IsTopK(b, wide, all, k)
    requires narrow <= wide && j < |a| <= |b|
    ensures all[a[j]] <= all[b[j]]
  {
    if all[a[j]] > all[b[j]] {
      var head := a[..j + 1];
      assert forall i :: 0 <= i < |head| ==> head[i] == a[i];
      Pigeonhole(b[..j], head);
    }
  }

  lemma RankNotAbove(a: seq<nat>, narrow: set<nat>, b: seq<nat>, wide: set<nat>, all: seq<real>, k: nat, j: nat)
    requires IsTopK(a, narrow, all, k) && IsTopK(b, wide, all, k)
    requires narrow <= wide && j < |a| <= |b|
    requires forall d, e :: d in wide - narrow && e in narrow ==> all[d] < all[e]
    ensures all[b[j]] <= all[a[j]]
  {
    if all[b[j]] > all[a[j]] {
      var head := b[..j + 1];
      assert forall i :: 0 <= i < |head| ==> head[i] == b[i];
      Pigeonhole(a[..j], head);
    }
  }

  lemma TailOutside(a: seq<nat>, narrow: set<nat>, b: seq<nat>, wide: set<nat>, all: seq<real>, k: nat, j: nat)
    requires IsTopK(a, narrow, all, k) && IsTopK(b, wide, all, k)
    requires narrow <= wide && |a| <= j < |b|
    requires forall d, e :: d in wide - narrow && e in narrow ==> all[d] < all[e]
    ensures b[j] !in narrow
  {
    if b[j] in narrow {
      var head := b[..j + 1];
      forall i | 0 <= i < |head|
        ensures head[i] in narrow
      {
        assert all[b[i]] >= all[b[j]];
      }
      DistinctFits(head, narrow);
    }
  }

  /** Two answers over the same candidates carry the same scores, whatever ids broke the ties. */
  lemma SameCandidatesSameScores(a: seq<nat>, b: seq<nat>, candidates: set<nat>, all: seq<real>, k: nat)
    requires IsTopK(a, candidates, all, k) && IsTopK(b, candidates, all, k)
    ensures |a| == |b|
    ensures forall j :: 0 <= j < |a| ==> all[a[j]] == all[b[j]]
  {
    LeadingScoresAgree(a, candidates, b, candidates, all, k);
  }

  ghost function PositiveOf(candidates: set<nat>, all: seq<real>): set<nat>
    requires forall d :: d in candidates ==> d < |all|
  {
    set d | d in candidates && all[d] > 0.0
  }

  /**
   * Dropping the candidates that do not score above zero drops exactly the non-positive tail of
   * the answer.
   */
  lemma PositivePart(a: seq<nat>, b: seq<nat>, candidates: set<nat>, all: seq<real>, k: nat)
    requires forall d :: d in candidates ==> d < |all|
    requires IsTopK(a, PositiveOf(candidates, all), all, k)
    requires IsTopK(b, candidates, all, k)
    ensures |a| <= |b|
    ensures forall j :: 0 <= j < |a| ==> all[a[j]] == all[b[j]] > 0.0
    ensures forall j :: |a| <= j < |b| ==> all[b[j]] <= 0.0
  {
    LeadingScoresAgree(a, PositiveOf(candidates, all), b, candidates, all, k);
  }

  /** A wider set of candidates never lowers the score at any rank. */
  lemma WiderNeverLowers(a: seq<nat>, narrow: set<nat>, b: seq<nat>, wide: set<nat>, all: seq<real>, k: nat)
    requires IsTopK(a, narrow, all, k) && IsTopK(b, wide, all, k)
    requires narrow <= wide
    ensures |a| <= |b|
    ensures forall j :: 0 <= j < |a| ==> all[a[j]] <= all[b[j]]
  {
    Subset(narrow, wide);
    forall j | 0 <= j < |a|
      ensures all[a[j]] <= all[b[j]]
    {
      RankNotBelow(a, narrow, b, wide, all, k, j);
    }
  }

  /** Answers to the same question carry the same score rows. */
  lemma AnswersAgree(s1: seq<real>, l1: seq<int>, s2: seq<real>, l2: seq<int>,
                     candidates: set<nat>, all: seq<real>, k: nat)
    requires Answers(s1, l1, candidates, all, k) && Answers(s2, l2, candidates, all, k)
    ensures s1 == s2
  {
    var a :| IsTopK(a, candidates, all, k) && IsPaddedAnswer(s1, l1, a, all, k);
    var b :| IsTopK(b, candidates, all, k) && IsPaddedAnswer(s2, l2, b, all, k);
    SameCandidatesSameScores(a, b, candidates, all, k);
  }

  /**
   * An answer over the positive candidates against one over all of them: rank by rank the same
   * score where it is positive, and padding exactly where the other has nothing above zero.
   */
  lemma PositiveAnswersAgree(s1: seq<real>, l1: seq<int>, s2: seq<real>, l2: seq<int>,
                             candidates: set<nat>, all: seq<real>, k: nat)
    requires forall d :: d in candidates ==> d < |all|
    requires Answers(s1, l1, PositiveOf(candidates, all), all, k) && Answers(s2, l2, candidates, all, k)
    ensures |s1| == |l1| == |s2| == |l2| == k
    ensures forall i :: 0 <= i < k && s2[i] > 0.0 ==> s1[i] == s2[i] && l1[i] >= 0
    ensures forall i :: 0 <= i < k && s2[i] <= 0.0 ==> s1[i] == -1.0 && l1[i] == -1
  {
    var a :| IsTopK(a, PositiveOf(candidates, all), all, k) && IsPaddedAnswer(s1, l1, a, all, k);
    var b :| IsTopK(b, candidates, all, k) && IsPaddedAnswer(s2, l2, b, all, k);
    PositivePart(a, b, candidates, all, k);
  }
}
