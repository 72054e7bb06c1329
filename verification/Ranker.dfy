/** The streaming top-k holders every search path feeds. */
module Ranker {
  import opened TopK

  datatype Option<+T> = None | Some(value: T)

  /** A scored id. The heap compares scores only. */
  datatype Item = Item(score: real, id: nat)

  ghost predicate Ascending(pq: seq<Item>) {
    forall i, j :: 0 <= i < j < |pq| ==> pq[i].score <= pq[j].score
  }

  /** A min-first priority queue as an ascending sequence; its top is element 0. */
  function Push(pq: seq<Item>, x: Item): (r: seq<Item>)
    ensures |r| == |pq| + 1
  {
    if pq == [] || x.score <= pq[0].score then [x] + pq
    else [pq[0]] + Push(pq[1..], x)
  }

  lemma {:induction false} PushMember(pq: seq<Item>, x: Item, y: Item)
    ensures y in Push(pq, x) <==> y in pq || y == x
  {
    if pq != [] && x.score > pq[0].score {
      PushMember(pq[1..], x, y);
    }
  }

  lemma {:induction false} PushContents(pq: seq<Item>, x: Item)
    ensures multiset(Push(pq, x)) == multiset(pq) + multiset{x}
  {
    if pq != [] && x.score > pq[0].score {
      PushContents(pq[1..], x);
      assert pq == [pq[0]] + pq[1..];
    }
  }

  lemma {:induction false} PushAscending(pq: seq<Item>, x: Item)
    requires Ascending(pq)
    ensures Ascending(Push(pq, x))
  {
    if pq != [] && x.score > pq[0].score {
      PushAscending(pq[1..], x);
      var rest := Push(pq[1..], x);
      forall i | 0 <= i < |rest|
        ensures pq[0].score <= rest[i].score
      {
        PushMember(pq[1..], x, rest[i]);
      }
    }
  }

  /** The queue after offering x to a holder of capacity k. */
  function Offer(pq: seq<Item>, k: nat, x: Item): seq<Item>
    requires k > 0
  {
    if |pq| < k then Push(pq, x)
    else if x.score <= pq[0].score then pq
    else Push(pq[1..], x)
  }

  /** An offer keeps the queue in order and within capacity, and never lowers a full queue's minimum. */
  lemma OfferAscending(pq: seq<Item>, k: nat, x: Item)
    requires k > 0 && Ascending(pq) && |pq| <= k
    ensures Ascending(Offer(pq, k, x)) && |Offer(pq, k, x)| == Min(k, |pq| + 1)
    ensures |pq| == k ==> pq[0].score <= Offer(pq, k, x)[0].score
  {
    if |pq| < k {
      PushAscending(pq, x);
    } else if x.score > pq[0].score {
      PushAscending(pq[1..], x);
      PushMember(pq[1..], x, Push(pq[1..], x)[0]);
    }
  }

  /** `kept` is a best-k part of everything offered, counted with multiplicity. */
  ghost predicate BestOf(kept: multiset<Item>, offered: multiset<Item>, k: nat) {
    && kept <= offered
    && |kept| == Min(k, |offered|)
    && forall x, y :: x in kept && y in offered - kept ==> y.score <= x.score
  }

  lemma BestAfterPush(kept: multiset<Item>, offered: multiset<Item>, k: nat, x: Item)
    requires BestOf(kept, offered, k) && |kept| < k
    ensures BestOf(kept + multiset{x}, offered + multiset{x}, k)
  {
    var left := offered - kept;
    assert offered == kept + left;
    assert (offered + multiset{x}) - (kept + multiset{x}) == left;
  }

  lemma BestAfterReject(kept: multiset<Item>, offered: multiset<Item>, k: nat, x: Item)
    requires BestOf(kept, offered, k) && |kept| == k
    requires forall y :: y in kept ==> x.score <= y.score
    ensures BestOf(kept, offered + multiset{x}, k)
  {
    var left := offered - kept;
    assert offered == kept + left;
    assert (offered + multiset{x}) - kept == left + multiset{x};
  }

  lemma BestAfterEvict(rest: multiset<Item>, low: Item, offered: multiset<Item>, k: nat, x: Item)
    requires BestOf(rest + multiset{low}, offered, k) && |rest| + 1 == k
    requires forall y :: y in rest ==> low.score <= y.score
    requires low.score < x.score
    ensures BestOf(rest + multiset{x}, offered + multiset{x}, k)
  {
    var kept := rest + multiset{low};
    var left := offered - kept;
    assert offered == kept + left;
    assert low in kept;
    assert (offered + multiset{x}) - (rest + multiset{x}) == left + multiset{low};
  }

  lemma OfferKeepsBest(pq: seq<Item>, offered: multiset<Item>, k: nat, x: Item)
    requires k > 0 && Ascending(pq) && |pq| <= k && BestOf(multiset(pq), offered, k)
    ensures BestOf(multiset(Offer(pq, k, x)), offered + multiset{x}, k)
  {
    hide Push, BestOf;
    if |pq| < k {
      PushContents(pq, x);
      BestAfterPush(multiset(pq), offered, k, x);
    } else {
      var low, rest := pq[0], pq[1..];
      assert pq == [low] + rest;
      MinIsLeast(pq);
      if x.score <= low.score {
        BestAfterReject(multiset(pq), offered, k, x);
      } else {
        PushContents(rest, x);
        assert forall y :: y in rest ==> y in pq;
        assert multiset(pq) == multiset(rest) + multiset{low};
        BestAfterEvict(multiset(rest), low, offered, k, x);
      }
    }
  }

  /** The queue a holder is left with after a whole run of adds. */
  function OfferAll(adds: seq<Item>, k: nat): seq<Item>
    requires k > 0
  {
    if adds == [] then [] else Offer(OfferAll(adds[..|adds| - 1], k), k, adds[|adds| - 1])
  }

  lemma {:induction false} RunAscending(adds: seq<Item>, k: nat)
    requires k > 0
    ensures Ascending(OfferAll(adds, k)) && |OfferAll(adds, k)| == Min(k, |adds|)
  {
    if adds != [] {
      RunAscending(adds[..|adds| - 1], k);
      OfferAscending(OfferAll(adds[..|adds| - 1], k), k, adds[|adds| - 1]);
    }
  }

  /** After any run of adds the holder keeps the k best of everything offered. */
  lemma {:induction false} RunKeepsBest(adds: seq<Item>, k: nat)
    requires k > 0
    ensures BestOf(multiset(OfferAll(adds, k)), multiset(adds), k)
  {
    if adds == [] {
      NothingOffered(k);
    } else {
      var init, last := adds[..|adds| - 1], adds[|adds| - 1];
      var pq := OfferAll(init, k);
      assert adds == init + [last];
      assert BestOf(multiset(Offer(pq, k, last)), multiset(init + [last]), k) by {
        RunKeepsBest(init, k);
        RunAscending(init, k);
        OfferStep(pq, init, k, last);
      }
    }
  }

  lemma NothingOffered(k: nat)
    ensures BestOf(multiset([]), multiset([]), k)
  {
  }

  lemma OfferStep(pq: seq<Item>, init: seq<Item>, k: nat, last: Item)
    requires k > 0 && Ascending(pq) && |pq| <= k && BestOf(multiset(pq), multiset(init), k)
    ensures BestOf(multiset(Offer(pq, k, last)), multiset(init + [last]), k)
  {
    OfferKeepsBest(pq, multiset(init), k, last);
    assert multiset(init + [last]) == multiset(init) + multiset{last};
  }

  lemma MinIsLeast(pq: seq<Item>)
    requires Ascending(pq) && pq != []
    ensures forall y :: y in pq ==> pq[0].score <= y.score
  {
  }

  /**
   * The queue is a top-k answer over the documents settled so far: true scores, no document twice,
   * and a settled document that is absent cannot beat what a full queue holds.
   */
  ghost predicate Holds(pq: seq<Item>, k: nat, all: seq<real>, settled: set<nat>) {
    && Ascending(pq) && |pq| <= k
    && (forall d :: d in settled ==> d < |all|)
    && (forall x :: x in pq ==> x.id in settled && x.score == all[x.id])
    && (forall i, j :: 0 <= i < j < |pq| ==> pq[i].id != pq[j].id)
    && (forall d :: d in settled && Item(all[d], d) !in pq ==> 0 < |pq| == k && all[d] <= pq[0].score)
  }

  lemma {:induction false} PushDistinct(pq: seq<Item>, x: Item)
    requires forall i, j :: 0 <= i < j < |pq| ==> pq[i].id != pq[j].id
    requires forall y :: y in pq ==> y.id != x.id
    ensures forall i, j :: 0 <= i < j < |Push(pq, x)| ==> Push(pq, x)[i].id != Push(pq, x)[j].id
  {
    if pq != [] && x.score > pq[0].score {
      PushDistinct(pq[1..], x);
      var rest := Push(pq[1..], x);
      forall i | 0 <= i < |rest|
        ensures pq[0].id != rest[i].id
      {
        PushMember(pq[1..], x, rest[i]);
      }
    }
  }

  lemma PushMembers(pq: seq<Item>, x: Item)
    ensures forall y :: y in Push(pq, x) <==> y in pq || y == x
  {
    forall y ensures y in Push(pq, x) <==> y in pq || y == x { PushMember(pq, x, y); }
  }

  /** Offering a new document with its true score settles it. */
  lemma OfferSettles(pq: seq<Item>, k: nat, all: seq<real>, settled: set<nat>, d: nat)
    requires k > 0 && Holds(pq, k, all, settled) && d < |all| && d !in settled
    ensures Holds(Offer(pq, k, Item(all[d], d)), k, all, settled + {d})
  {
    var x := Item(all[d], d);
    OfferAscending(pq, k, x);
    if |pq| < k {
      PushMembers(pq, x);
      PushDistinct(pq, x);
    } else if x.score > pq[0].score {
      EvictSettles(pq, k, all, settled, d);
    }
  }

  lemma EvictSettles(pq: seq<Item>, k: nat, all: seq<real>, settled: set<nat>, d: nat)
    requires k > 0 && Holds(pq, k, all, settled) && d < |all| && d !in settled
    requires |pq| == k && all[d] > pq[0].score
    ensures Holds(Push(pq[1..], Item(all[d], d)), k, all, settled + {d})
  {
    var x, rest := Item(all[d], d), pq[1..];
    OfferAscending(pq, k, x);
    assert pq == [pq[0]] + rest;
    PushMembers(rest, x);
    PushDistinct(rest, x);
  }

  /** The items in drain order. */
  function BestFirst(pq: seq<Item>): (r: seq<Item>)
    ensures |r| == |pq|
    ensures forall i :: 0 <= i < |r| ==> r[i] == pq[|pq| - 1 - i]
  {
    seq(|pq|, i requires 0 <= i < |pq| => pq[|pq| - 1 - i])
  }

  function Ids(pq: seq<Item>): (ids: seq<nat>)
    ensures |ids| == |pq|
    ensures forall i :: 0 <= i < |ids| ==> ids[i] == BestFirst(pq)[i].id
  {
    seq(|pq|, i requires 0 <= i < |pq| => BestFirst(pq)[i].id)
  }

  lemma BestFirstMembers(pq: seq<Item>)
    ensures forall x :: x in pq <==> x in BestFirst(pq)
  {
    forall x | x in pq
      ensures x in BestFirst(pq)
    {
      var i :| 0 <= i < |pq| && pq[i] == x;
      assert BestFirst(pq)[|pq| - 1 - i] == x;
    }
  }

  lemma IdsListItems(pq: seq<Item>, k: nat, all: seq<real>, settled: set<nat>)
    requires Holds(pq, k, all, settled)
    ensures Distinct(Ids(pq))
    ensures forall i :: 0 <= i < |pq| ==> Ids(pq)[i] in settled && BestFirst(pq)[i].score == all[Ids(pq)[i]]
    ensures forall d :: d in settled && d !in Ids(pq) ==> Item(all[d], d) !in pq
  {
    BestFirstMembers(pq);
    forall d | d in settled && Item(all[d], d) in pq
      ensures d in Ids(pq)
    {
      var i :| 0 <= i < |pq| && BestFirst(pq)[i] == Item(all[d], d);
      assert Ids(pq)[i] == d;
    }
  }

  lemma HeldCount(pq: seq<Item>, k: nat, all: seq<real>, settled: set<nat>)
    requires Holds(pq, k, all, settled)
    ensures |pq| == Min(k, |settled|)
  {
    var ids := Ids(pq);
    IdsListItems(pq, k, all, settled);
    DistinctFits(ids, settled);
    if |pq| < k {
      var listed := set i | 0 <= i < |ids| :: ids[i];
      assert settled <= listed;
      Subset(settled, listed);
      DistinctCardinality(ids);
    }
  }

  /** Draining such a queue lists an exact top-k of the settled documents. */
  lemma DrainIsTopK(pq: seq<Item>, k: nat, all: seq<real>, settled: set<nat>)
    requires Holds(pq, k, all, settled)
    ensures IsTopK(Ids(pq), settled, all, k)
  {
    IdsListItems(pq, k, all, settled);
    HeldCount(pq, k, all, settled);
    var ids, best := Ids(pq), BestFirst(pq);
    forall i, j | 0 <= i < j < |ids|
      ensures all[ids[i]] >= all[ids[j]]
    {
      assert best[i].score >= best[j].score;
    }
    forall d, i | d in settled && d !in ids && 0 <= i < |ids|
      ensures all[d] <= all[ids[i]]
    {
      assert pq[0].score <= best[i].score;
    }
  }

  /** The heap that keeps the k highest scores it has been offered (TopKHolder). */
  class TopKHolder {
    const k: nat
    var pq: seq<Item>
    /** None stands for the initial infinity. */
    var threshold: Option<real>

    ghost predicate Valid()
      reads this
    {
      && k > 0
      && Ascending(pq) && |pq| <= k
      && threshold == (if |pq| == k then Some(pq[0].score) else None)
    }

    constructor (k: nat)
      requires k > 0
      ensures Valid() && this.k == k && pq == []
    {
      this.k := k;
      pq := [];
      threshold := None;
    }

    predicate Full()
      reads this
    {
      |pq| == k
    }

    function PeekScore(): real
      requires pq != []
      reads this
    {
      pq[0].score
    }

    method Add(score: real, id: nat)
      requires Valid()
      modifies this
      ensures Valid()
      ensures pq == Offer(old(pq), k, Item(score, id))
      ensures old(Full()) ==> Full() && old(pq[0].score) <= pq[0].score
    {
      OfferAscending(pq, k, Item(score, id));
      if |pq| >= k && threshold.Some? && score <= threshold.value {
        return;
      }
      if |pq| < k {
        pq := Push(pq, Item(score, id));
        if |pq| == k {
          threshold := Some(pq[0].score);
        }
      } else {
        pq := pq[1..];
        pq := Push(pq, Item(score, id));
        threshold := Some(pq[0].score);
      }
    }

    /** Drains the heap, highest score first. */
    method TopKItemsDescending() returns (scores: seq<real>, ids: seq<nat>)
      requires Valid()
      modifies this`pq
      ensures pq == []
      ensures |scores| == |ids| == |old(pq)|
      ensures forall i :: 0 <= i < |ids| ==> Item(scores[i], ids[i]) == BestFirst(old(pq))[i]
    {
      scores, ids := [], [];
      ghost var was, best, n := pq, BestFirst(pq), 0;
      while pq != []
        invariant n <= |was| && pq == was[n..] && |ids| == |scores| == n
        invariant forall i :: 0 <= i < n ==> Item(scores[i], ids[i]) == best[|was| - n + i]
      {
        assert pq[0] == best[|was| - 1 - n];
        scores, ids := [pq[0].score] + scores, [pq[0].id] + ids;
        pq := pq[1..];
        n := n + 1;
      }
    }

    /** Drains the heap into the ids alone, highest score first. */
    method TopKDescending() returns (ids: seq<nat>)
      requires Valid()
      modifies this`pq
      ensures pq == [] && ids == Ids(old(pq))
    {
      ids := [];
      ghost var was, n := pq, 0;
      while pq != []
        invariant n <= |was| && pq == was[n..] && |ids| == n
        invariant forall i :: 0 <= i < n ==> ids[i] == was[n - 1 - i].id
      {
        ids := [pq[0].id] + ids;
        pq := pq[1..];
        n := n + 1;
      }
    }
  }

  /** The set holds the ids of the queue's items. */
  ghost predicate Mirrors(dedupe: set<nat>, pq: seq<Item>, all: seq<real>) {
    forall d: nat :: d in dedupe <==> d < |all| && Item(all[d], d) in pq
  }

  lemma DedupeFollows(dedupe: set<nat>, pq: seq<Item>, all: seq<real>, id: nat, more: set<nat>)
    requires Mirrors(dedupe, pq, all) && id < |all| && more == dedupe + {id}
    ensures Mirrors(more, Push(pq, Item(all[id], id)), all)
  {
    PushMembers(pq, Item(all[id], id));
  }

  /** Evicting the minimum takes its id out, since every item carries its document's true score once. */
  lemma DedupeDrops(dedupe: set<nat>, pq: seq<Item>, all: seq<real>, fewer: set<nat>)
    requires Mirrors(dedupe, pq, all) && pq != [] && fewer == dedupe - {pq[0].id}
    requires forall i, j :: 0 <= i < j < |pq| ==> pq[i].id != pq[j].id
    requires forall i :: 0 <= i < |pq| ==> pq[i].id < |all| && pq[i].score == all[pq[i].id]
    ensures Mirrors(fewer, pq[1..], all)
  {
    assert pq == [pq[0]] + pq[1..];
  }

  /**
   * The heap over distinct ids (DedupeTopKHolder). `all` is the score each id arrives with, every
   * time it arrives.
   */
  class DedupeTopKHolder {
    const k: nat
    ghost const all: seq<real>
    var pq: seq<Item>
    var dedupe: set<nat>
    ghost var offered: set<nat>

    ghost predicate Valid()
      reads this
    {
      && k > 0
      && Holds(pq, k, all, offered)
      && Mirrors(dedupe, pq, all)
    }

    constructor (k: nat, ghost all: seq<real>)
      requires k > 0
      ensures Valid() && this.k == k && this.all == all && offered == {}
    {
      this.k := k;
      this.all := all;
      pq := [];
      dedupe := {};
      offered := {};
    }

    method Add(score: real, id: nat)
      requires Valid()
      requires id < |all| && score == all[id]
      modifies this
      ensures Valid() && offered == old(offered) + {id}
      ensures pq == if Item(score, id) in old(pq) then old(pq) else Offer(old(pq), k, Item(score, id))
    {
      ghost var seen := id in offered;
      if !seen {
        OfferSettles(pq, k, all, offered, id);
      }
      offered := offered + {id};
      if |pq| >= k && score <= pq[0].score {
        return;
      }
      if id in dedupe {
        assert seen;
        return;
      }
      assert !seen;
      if |pq| < k {
        DedupeFollows(dedupe, pq, all, id, dedupe + {id});
        pq := Push(pq, Item(score, id));
        dedupe := dedupe + {id};
      } else if pq[0].score < score {
        DedupeDrops(dedupe, pq, all, dedupe - {pq[0].id});
        dedupe := dedupe - {pq[0].id};
        pq := pq[1..];
        DedupeFollows(dedupe, pq, all, id, dedupe + {id});
        pq := Push(pq, Item(score, id));
        dedupe := dedupe + {id};
      }
    }

    /** Drains the heap into rows of length k, highest score first, padded behind. */
    method TopKDescendingWithScoresAndPadding(padWith: int, scorePad: real)
      returns (labels: seq<int>, scores: seq<real>)
      requires Valid()
      modifies this`pq
      ensures pq == [] && |labels| == |scores| == k
      ensures IsTopK(Ids(old(pq)), offered, all, k)
      ensures forall i :: 0 <= i < |old(pq)| ==> labels[i] == Ids(old(pq))[i] && scores[i] == all[Ids(old(pq))[i]]
      ensures forall i :: |old(pq)| <= i < k ==> labels[i] == padWith && scores[i] == scorePad
    {
      DrainIsTopK(pq, k, all, offered);
      IdsListItems(pq, k, all, offered);
      labels, scores := DrainInto(padWith, scorePad);
    }

    method DrainInto(padWith: int, scorePad: real) returns (labels: seq<int>, scores: seq<real>)
      requires |pq| <= k
      modifies this`pq
      ensures pq == [] && |labels| == |scores| == k
      ensures forall i :: 0 <= i < |old(pq)| ==> labels[i] == BestFirst(old(pq))[i].id
      ensures forall i :: 0 <= i < |old(pq)| ==> scores[i] == BestFirst(old(pq))[i].score
      ensures forall i :: |old(pq)| <= i < k ==> labels[i] == padWith && scores[i] == scorePad
    {
      labels := seq(k, _ => padWith);
      scores := seq(k, _ => scorePad);
      ghost var was, best, n := pq, BestFirst(pq), 0;
      var idx := |pq| - 1;
      while pq != [] && idx >= 0
        invariant n <= |was| <= k && pq == was[n..] && idx == |was| - 1 - n
        invariant |labels| == |scores| == k
        invariant forall i :: idx < i < |was| ==> labels[i] == best[i].id
        invariant forall i :: idx < i < |was| ==> scores[i] == best[i].score
        invariant forall i :: |was| <= i < k ==> labels[i] == padWith && scores[i] == scorePad
      {
        assert pq[0] == best[idx];
        labels := labels[idx := pq[0].id];
        scores := scores[idx := pq[0].score];
        pq := pq[1..];
        idx := idx - 1;
        n := n + 1;
      }
    }
  }
}
