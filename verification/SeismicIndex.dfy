/**
 * The clustered index: cut the query to its heaviest terms, walk their clusters, and skip those
 * whose summary cannot beat the heap.
 */
module SeismicIndex {
  import opened SparseDot
  import opened SparseVectors
  import opened TopK
  import opened Ranker
  import opened Distance
  import opened Summaries
  import opened InvertedLists
  import opened KMeans
  import opened ClusteredLists
  import Clusters = InvertedListClusters
  import InvertedIndex
  import ExactMatcher
  import opened TermWindows
  import opened BatchedBuild
  import Sorting

  // ---------------------------------------------------------------- the query cut

  function ItemsOf(query: Row): (items: seq<Item>)
    ensures |items| == |query| && forall i :: 0 <= i < |query| ==> items[i] == Item(query[i].value, query[i].term)
  {
    seq(|query|, i requires 0 <= i < |query| => Item(query[i].value, query[i].term))
  }

  /** All query terms in order, or those of the k heaviest entries, heaviest first. */
  ghost predicate IsCutOf(cuts: seq<nat>, query: Row, k: int) {
    if k >= |query| then |cuts| == |query| && forall i :: 0 <= i < |cuts| ==> cuts[i] == query[i].term
    else exists pq: seq<Item> ::
        Ascending(pq) && |pq| == k && BestOf(multiset(pq), multiset(ItemsOf(query)), k) && cuts == Ids(pq)
  }

  /** top_k_tokens; a heap cannot be made for a cut that is not positive. */
  method TopKTokens(query: Row, k: int) returns (result: Result<seq<nat>>)
    ensures result.Failed? <==> k < |query| && k <= 0
    ensures result.Ok? ==> IsCutOf(result.value, query, k)
  {
    if k >= |query| {
      return Ok(seq(|query|, i requires 0 <= i < |query| => query[i].term));
    }
    if k <= 0 {
      return Failed("value must be positive");
    }
    var holder := new TopKHolder(k);
    ghost var items := ItemsOf(query);
    for i := 0 to |query|
      invariant holder.Valid() && holder.k == k && holder.pq == OfferAll(items[..i], k)
    {
      assert items[..i + 1][..i] == items[..i];
      holder.Add(query[i].value, query[i].term);
    }
    assert items[..|items|] == items;
    RunAscending(items, k);
    RunKeepsBest(items, k);
    var cuts := holder.TopKDescending();
    return Ok(cuts);
  }

  // ---------------------------------------------------------------- what a walk has established

  ghost function Admitted(visited: set<nat>, isMember: nat -> bool): set<nat> {
    set d | d in visited && isMember(d)
  }

  /** The score a cluster is held to: its summary's score, relaxed by the heap factor. */
  ghost function Bound(cluster: Cluster, query: Row, heapFactor: real): real {
    Dot(cluster.summary, query) * heapFactor
  }

  /** Every document of the cluster was looked at, or the full heap's minimum beats its bound. */
  ghost predicate Finished(cluster: Cluster, query: Row, heapFactor: real, visited: set<nat>, pq: seq<Item>, k: nat) {
    (forall d :: d in cluster.docs ==> d in visited) || (|pq| == k > 0 && Bound(cluster, query, heapFactor) < pq[0].score)
  }

  ghost predicate AllFinished(clusters: seq<Cluster>, query: Row, heapFactor: real, visited: set<nat>, pq: seq<Item>, k: nat) {
    forall c :: 0 <= c < |clusters| ==> Finished(clusters[c], query, heapFactor, visited, pq, k)
  }

  /** The heap has only been raised. */
  ghost predicate Raised(before: seq<Item>, after: seq<Item>, k: nat) {
    |before| == k > 0 ==> |after| == k && before[0].score <= after[0].score
  }

  lemma StaysFinished(cluster: Cluster, query: Row, heapFactor: real, visited: set<nat>, pq: seq<Item>, k: nat,
                      laterVisited: set<nat>, laterPq: seq<Item>)
    requires Finished(cluster, query, heapFactor, visited, pq, k)
    requires visited <= laterVisited && Raised(pq, laterPq, k)
    ensures Finished(cluster, query, heapFactor, laterVisited, laterPq, k)
  {
  }

  /** Some cut term's list holds the document. */
  ghost predicate Reached(lists: seq<seq<Cluster>>, cuts: seq<nat>, d: nat) {
    exists i :: 0 <= i < |cuts| && cuts[i] < |lists| && Inside(lists[cuts[i]], d)
  }

  // ---------------------------------------------------------------- the walk itself

  /** What a query's walk goes by, apart from the clusters. */
  datatype WalkContext = WalkContext(query: Row, heapFactor: real, isMember: nat -> bool, k: nat, all: seq<real>)

  /** What a walk carries from cluster to cluster. */
  datatype State = State(visited: set<nat>, pq: seq<Item>)

  /** A document met for the first time is marked, and offered at its true score if it is admitted. */
  ghost function MeetDoc(s: State, d: nat, ctx: WalkContext): State
    requires ctx.k > 0 && d < |ctx.all|
  {
    if d in s.visited then s
    else State(s.visited + {d}, if ctx.isMember(d) then Offer(s.pq, ctx.k, Item(ctx.all[d], d)) else s.pq)
  }

  ghost function MeetAll(s: State, docs: seq<nat>, ctx: WalkContext): State
    requires ctx.k > 0 && InRange(docs, |ctx.all|)
  {
    if docs == [] then s else MeetDoc(MeetAll(s, docs[..|docs| - 1], ctx), docs[|docs| - 1], ctx)
  }

  /** The heap is full and its minimum lies above the cluster's bound. */
  ghost predicate Beaten(s: State, cluster: Cluster, ctx: WalkContext) {
    |s.pq| == ctx.k > 0 && Bound(cluster, ctx.query, ctx.heapFactor) < s.pq[0].score
  }

  /** The state after the first n clusters of an order, every one of them scored. */
  ghost function ScoredFirst(s: State, clusters: seq<Cluster>, order: seq<nat>, n: nat, ctx: WalkContext): State
    requires ctx.k > 0 && DocsBelow(clusters, |ctx.all|)
    requires n <= |order| && forall i :: 0 <= i < |order| ==> order[i] < |clusters|
  {
    if n == 0 then s else MeetAll(ScoredFirst(s, clusters, order, n - 1, ctx), clusters[order[n - 1]].docs, ctx)
  }

  /** The state after the first n clusters as stored, the beaten ones passed over. */
  ghost function PassedFirst(s: State, clusters: seq<Cluster>, n: nat, ctx: WalkContext): State
    requires ctx.k > 0 && DocsBelow(clusters, |ctx.all|) && n <= |clusters|
  {
    if n == 0 then s
    else
      var before := PassedFirst(s, clusters, n - 1, ctx);
      if Beaten(before, clusters[n - 1], ctx) then before else MeetAll(before, clusters[n - 1].docs, ctx)
  }

  /** Every cluster once, by descending summary score. */
  ghost predicate IsDescending(order: seq<nat>, clusters: seq<Cluster>, query: Row) {
    && |order| == |clusters|
    && (forall i :: 0 <= i < |order| ==> order[i] < |clusters|)
    && (forall c: nat :: c < |clusters| ==> c in order)
    && forall i, j :: 0 <= i < j < |order| ==> Dot(clusters[order[i]].summary, query) >= Dot(clusters[order[j]].summary, query)
  }

  /** What a walk has kept to after n places of its order. */
  ghost predicate Traced(s: State, clusters: seq<Cluster>, order: seq<nat>, n: nat, firstList: bool, ctx: WalkContext, now: State)
    requires ctx.k > 0 && DocsBelow(clusters, |ctx.all|)
  {
    && n <= |order| && (forall i :: 0 <= i < |order| ==> order[i] < |clusters|)
    && if firstList then
         && now == ScoredFirst(s, clusters, order, n, ctx)
         && forall i :: 0 <= i < n ==> !Beaten(ScoredFirst(s, clusters, order, i, ctx), clusters[order[i]], ctx)
       else order == Identity(|clusters|) && now == PassedFirst(s, clusters, n, ctx)
  }

  /** The walk scored the first n clusters of the order, and stopped at the first beaten one or at the end. */
  ghost predicate StopsAt(s: State, clusters: seq<Cluster>, order: seq<nat>, n: nat, ctx: WalkContext)
    requires ctx.k > 0 && DocsBelow(clusters, |ctx.all|)
    requires n <= |order| && forall i :: 0 <= i < |order| ==> order[i] < |clusters|
  {
    && (forall i :: 0 <= i < n ==> !Beaten(ScoredFirst(s, clusters, order, i, ctx), clusters[order[i]], ctx))
    && (n < |order| ==> Beaten(ScoredFirst(s, clusters, order, n, ctx), clusters[order[n]], ctx))
  }

  /** The first list: best summary first, up to the first beaten cluster. */
  ghost predicate IsFirstWalk(s: State, clusters: seq<Cluster>, ctx: WalkContext, after: State)
    requires ctx.k > 0 && DocsBelow(clusters, |ctx.all|)
  {
    exists order: seq<nat>, n: nat ::
      n <= |order| && IsDescending(order, clusters, ctx.query) && StopsAt(s, clusters, order, n, ctx)
      && after == ScoredFirst(s, clusters, order, n, ctx)
  }

  lemma TraceStarts(s: State, clusters: seq<Cluster>, order: seq<nat>, scores: seq<real>, firstList: bool, ctx: WalkContext)
    requires ctx.k > 0 && DocsBelow(clusters, |ctx.all|)
    requires |scores| == |clusters| && IsOrder(order, scores, firstList)
    ensures Traced(s, clusters, order, 0, firstList, ctx, s)
  {
  }

  lemma TraceVisits(s: State, clusters: seq<Cluster>, order: seq<nat>, n: nat, firstList: bool, ctx: WalkContext, before: State, now: State)
    requires ctx.k > 0 && DocsBelow(clusters, |ctx.all|) && n < |order| && order[n] < |clusters|
    requires Traced(s, clusters, order, n, firstList, ctx, before) && !Beaten(before, clusters[order[n]], ctx)
    requires now == MeetAll(before, clusters[order[n]].docs, ctx)
    ensures Traced(s, clusters, order, n + 1, firstList, ctx, now)
  {
    hide MeetAll, Beaten;
  }

  lemma TraceSkips(s: State, clusters: seq<Cluster>, order: seq<nat>, n: nat, ctx: WalkContext, now: State)
    requires ctx.k > 0 && DocsBelow(clusters, |ctx.all|) && n < |order| && order[n] < |clusters|
    requires Traced(s, clusters, order, n, false, ctx, now) && Beaten(now, clusters[order[n]], ctx)
    ensures Traced(s, clusters, order, n + 1, false, ctx, now)
  {
    hide MeetAll, Beaten;
  }

  /** A first walk that is broken off, or any walk that came to its end. */
  lemma TraceEnds(s: State, clusters: seq<Cluster>, order: seq<nat>, n: nat, scores: seq<real>, firstList: bool, ctx: WalkContext, now: State)
    requires ctx.k > 0 && DocsBelow(clusters, |ctx.all|) && n <= |order|
    requires ScoredBy(scores, clusters, ctx.query) && IsOrder(order, scores, firstList)
    requires Traced(s, clusters, order, n, firstList, ctx, now)
    requires n < |order| ==> firstList && Beaten(now, clusters[order[n]], ctx)
    ensures IsWalk(s, clusters, firstList, ctx, now)
  {
    hide MeetAll, Beaten, Dot;
    if firstList {
      assert IsDescending(order, clusters, ctx.query);
      assert StopsAt(s, clusters, order, n, ctx);
    }
  }

  /** A list's walk. */
  ghost predicate IsWalk(s: State, clusters: seq<Cluster>, firstList: bool, ctx: WalkContext, after: State)
    requires ctx.k > 0 && DocsBelow(clusters, |ctx.all|)
  {
    if firstList then IsFirstWalk(s, clusters, ctx, after)
    else after == PassedFirst(s, clusters, |clusters|, ctx)
  }

  /** No list was reached by the first n cut terms. */
  ghost predicate NoneReached(cuts: seq<nat>, n: nat, lists: seq<seq<Cluster>>)
    requires n <= |cuts|
  {
    forall i :: 0 <= i < n ==> cuts[i] >= |lists|
  }

  /** The n-th cut term: its list is walked, as the first if no earlier term had one; a term past the index has none. */
  ghost predicate IsTurn(lists: seq<seq<Cluster>>, cuts: seq<nat>, n: nat, ctx: WalkContext, s: State, after: State)
    requires ctx.k > 0 && 0 < n <= |cuts| && ListsBelow(lists, |ctx.all|)
  {
    if cuts[n - 1] >= |lists| then after == s
    else IsWalk(s, lists[cuts[n - 1]], NoneReached(cuts, n - 1, lists), ctx, after)
  }

  /** The state that walking the lists of the first n cut terms, in their order, can end in. */
  ghost predicate IsRun(lists: seq<seq<Cluster>>, cuts: seq<nat>, n: nat, ctx: WalkContext, after: State)
    requires ctx.k > 0 && n <= |cuts| && ListsBelow(lists, |ctx.all|)
  {
    if n == 0 then after == State({}, [])
    else exists s: State :: IsRun(lists, cuts, n - 1, ctx, s) && IsTurn(lists, cuts, n, ctx, s, after)
  }

  lemma RunStarts(lists: seq<seq<Cluster>>, cuts: seq<nat>, ctx: WalkContext)
    requires ctx.k > 0 && ListsBelow(lists, |ctx.all|)
    ensures IsRun(lists, cuts, 0, ctx, State({}, [])) && NoneReached(cuts, 0, lists)
  {
  }

  lemma RunSkips(lists: seq<seq<Cluster>>, cuts: seq<nat>, n: nat, ctx: WalkContext, s: State)
    requires ctx.k > 0 && ListsBelow(lists, |ctx.all|) && n < |cuts| && cuts[n] >= |lists|
    requires IsRun(lists, cuts, n, ctx, s)
    ensures IsRun(lists, cuts, n + 1, ctx, s) && NoneReached(cuts, n + 1, lists) == NoneReached(cuts, n, lists)
  {
    hide IsWalk;
    assert IsTurn(lists, cuts, n + 1, ctx, s, s);
  }

  lemma RunWalks(lists: seq<seq<Cluster>>, cuts: seq<nat>, n: nat, ctx: WalkContext, s: State, after: State)
    requires ctx.k > 0 && ListsBelow(lists, |ctx.all|) && n < |cuts| && cuts[n] < |lists|
    requires IsRun(lists, cuts, n, ctx, s) && IsWalk(s, lists[cuts[n]], NoneReached(cuts, n, lists), ctx, after)
    ensures IsRun(lists, cuts, n + 1, ctx, after) && !NoneReached(cuts, n + 1, lists)
  {
    hide IsWalk;
    assert IsTurn(lists, cuts, n + 1, ctx, s, after);
  }

  // ---------------------------------------------------------------- walking one list

  /** Scores the cluster's documents that were not visited before and are admitted. */
  method ScoreDocs(csr: Csr, docs: seq<nat>, dense: array<real>, ghost query: Row, isMember: nat -> bool,
                   heap: TopKHolder, visited: set<nat>, ghost all: seq<real>, ghost ctx: WalkContext) returns (nowVisited: set<nat>)
    requires csr.Valid() && InRange(docs, csr.Count()) && all == InvertedIndex.DocScores(csr.Rows(), query)
    requires ctx.isMember == isMember && ctx.k == heap.k && ctx.all == all
    requires forall d :: 0 <= d < csr.Count() ==> TermsBelow(csr.Row(d), dense.Length)
    requires Scattered(dense[..], query)
    requires heap.Valid() && Holds(heap.pq, heap.k, all, Admitted(visited, isMember))
    modifies heap
    ensures heap.Valid() && Holds(heap.pq, heap.k, all, Admitted(nowVisited, isMember))
    ensures Raised(old(heap.pq), heap.pq, heap.k)
    ensures forall d: nat :: d in nowVisited <==> d in visited || d in docs
    ensures State(nowVisited, heap.pq) == MeetAll(State(visited, old(heap.pq)), docs, ctx)
  {
    hide Holds, Scattered, TermsBelow;
    nowVisited := visited;
    for i := 0 to |docs|
      invariant heap.Valid() && Holds(heap.pq, heap.k, all, Admitted(nowVisited, isMember))
      invariant Raised(old(heap.pq), heap.pq, heap.k)
      invariant forall d: nat :: d in nowVisited <==> d in visited || d in docs[..i]
      invariant State(nowVisited, heap.pq) == MeetAll(State(visited, old(heap.pq)), docs[..i], ctx)
    {
      var d := docs[i];
      assert docs[..i + 1] == docs[..i] + [d];
      if d !in nowVisited {
        ghost var before := Admitted(nowVisited, isMember);
        nowVisited := nowVisited + {d};
        if isMember(d) {
          assert Admitted(nowVisited, isMember) == before + {d};
          OfferSettles(heap.pq, heap.k, all, before, d);
          var score := DotProductDense(csr.Row(d), dense, query);
          heap.Add(score, d);
        } else {
          assert Admitted(nowVisited, isMember) == before;
        }
      }
    }
    assert docs[..|docs|] == docs;
  }

  ghost predicate IsOrder(order: seq<nat>, scores: seq<real>, firstList: bool) {
    && |order| == |scores| && (forall i :: 0 <= i < |order| ==> order[i] < |scores|)
    && (forall c: nat :: c < |scores| ==> c in order)
    && (if firstList
        then forall i, j :: 0 <= i < j < |order| ==> scores[order[i]] >= scores[order[j]]
        else order == Identity(|scores|))
  }

  /** Cluster ids, best summary first for the first list, as stored for the others. */
  method ReorderClusters(scores: seq<real>, firstList: bool) returns (order: seq<nat>)
    ensures multiset(order) == multiset(Identity(|scores|))
    ensures IsOrder(order, scores, firstList)
  {
    var n := |scores|;
    order := Identity(n);
    assert forall c :: 0 <= c < n ==> order[c] == c;
    forall c: nat | c < n
      ensures c in order
    {
      assert order[c] == c;
    }
    if firstList {
      order := Sorting.SortBy(Identity(n), (c: nat) => if c < n then -scores[c] else 0.0);
      forall i | 0 <= i < |order|
        ensures order[i] < n
      {
        assert order[i] in multiset(Identity(n));
      }
      forall c: nat | c < n
        ensures c in order
      {
        assert Identity(n)[c] in multiset(order);
      }
      forall i, j | 0 <= i < j < |order|
        ensures scores[order[i]] >= scores[order[j]]
      {
        assert -scores[order[i]] <= -scores[order[j]];
      }
    }
  }

  lemma LowerSummaryLowerBound(low: real, high: real, heapFactor: real, minimum: real)
    requires low <= high && heapFactor >= 0.0 && high * heapFactor < minimum
    ensures low * heapFactor < minimum
  {
    ScaleMonotone(heapFactor, low, high);
  }

  ghost predicate ScoredBy(scores: seq<real>, clusters: seq<Cluster>, query: Row) {
    |scores| == |clusters| && forall c :: 0 <= c < |clusters| ==> scores[c] == Dot(clusters[c].summary, query)
  }

  /** The clusters at the first n places of the order are finished. */
  ghost predicate FinishedUpTo(order: seq<nat>, n: nat, clusters: seq<Cluster>, query: Row, heapFactor: real,
                               visited: set<nat>, pq: seq<Item>, k: nat) {
    n <= |order| && forall i :: 0 <= i < n ==>
      order[i] < |clusters| && Finished(clusters[order[i]], query, heapFactor, visited, pq, k)
  }

  lemma StaysFinishedUpTo(order: seq<nat>, n: nat, clusters: seq<Cluster>, query: Row, heapFactor: real,
                          visited: set<nat>, pq: seq<Item>, k: nat, laterVisited: set<nat>, laterPq: seq<Item>)
    requires FinishedUpTo(order, n, clusters, query, heapFactor, visited, pq, k)
    requires visited <= laterVisited && Raised(pq, laterPq, k)
    ensures FinishedUpTo(order, n, clusters, query, heapFactor, laterVisited, laterPq, k)
  {
    forall i | 0 <= i < n
      ensures Finished(clusters[order[i]], query, heapFactor, laterVisited, laterPq, k)
    {
      StaysFinished(clusters[order[i]], query, heapFactor, visited, pq, k, laterVisited, laterPq);
    }
  }

  lemma OrderFinished(order: seq<nat>, scores: seq<real>, firstList: bool, clusters: seq<Cluster>, query: Row,
                      heapFactor: real, visited: set<nat>, pq: seq<Item>, k: nat)
    requires IsOrder(order, scores, firstList) && |scores| == |clusters|
    requires FinishedUpTo(order, |order|, clusters, query, heapFactor, visited, pq, k)
    ensures AllFinished(clusters, query, heapFactor, visited, pq, k)
  {
    forall c | 0 <= c < |clusters|
      ensures Finished(clusters[c], query, heapFactor, visited, pq, k)
    {
      assert c in order;
      var i :| 0 <= i < |order| && order[i] == c;
    }
  }

  /** Once a sorted walk meets a bound below the heap's minimum, all that follow lie below it too. */
  lemma BreakFinishes(order: seq<nat>, n: nat, scores: seq<real>, clusters: seq<Cluster>, query: Row, heapFactor: real,
                      visited: set<nat>, pq: seq<Item>, k: nat)
    requires IsOrder(order, scores, true) && ScoredBy(scores, clusters, query)
    requires n < |order| && FinishedUpTo(order, n, clusters, query, heapFactor, visited, pq, k)
    requires heapFactor >= 0.0 && |pq| == k > 0 && scores[order[n]] * heapFactor < pq[0].score
    ensures AllFinished(clusters, query, heapFactor, visited, pq, k)
  {
    forall i | n <= i < |order|
      ensures Finished(clusters[order[i]], query, heapFactor, visited, pq, k)
    {
      LowerSummaryLowerBound(scores[order[i]], scores[order[n]], heapFactor, pq[0].score);
    }
    OrderFinished(order, scores, true, clusters, query, heapFactor, visited, pq, k);
  }

  lemma FinishNext(order: seq<nat>, n: nat, clusters: seq<Cluster>, query: Row, heapFactor: real,
                   visited: set<nat>, pq: seq<Item>, k: nat)
    requires n < |order| && order[n] < |clusters| && FinishedUpTo(order, n, clusters, query, heapFactor, visited, pq, k)
    requires Finished(clusters[order[n]], query, heapFactor, visited, pq, k)
    ensures FinishedUpTo(order, n + 1, clusters, query, heapFactor, visited, pq, k)
  {
  }

  /** Whatever was visited was visited before, or lies in one of the clusters. */
  ghost predicate From(visited: set<nat>, before: set<nat>, clusters: seq<Cluster>) {
    forall d :: d in visited ==> d in before || Inside(clusters, d)
  }

  lemma FromCluster(visited: set<nat>, before: set<nat>, clusters: seq<Cluster>, c: nat, nowVisited: set<nat>)
    requires From(visited, before, clusters) && c < |clusters|
    requires forall d: nat :: d in nowVisited ==> d in visited || d in clusters[c].docs
    ensures From(nowVisited, before, clusters)
  {
    forall d: nat | d in clusters[c].docs
      ensures Inside(clusters, d)
    {
    }
  }

  /** The walk's state: the heap is exact on what was visited, and the first n clusters are finished. */
  ghost predicate Walked(order: seq<nat>, n: nat, clusters: seq<Cluster>, query: Row, heapFactor: real, isMember: nat -> bool,
                         before: set<nat>, visited: set<nat>, pq: seq<Item>, k: nat, all: seq<real>) {
    && Holds(pq, k, all, Admitted(visited, isMember))
    && before <= visited && From(visited, before, clusters)
    && FinishedUpTo(order, n, clusters, query, heapFactor, visited, pq, k)
  }

  lemma WalkStarts(order: seq<nat>, clusters: seq<Cluster>, query: Row, heapFactor: real, isMember: nat -> bool,
                   visited: set<nat>, pq: seq<Item>, k: nat, all: seq<real>)
    requires Holds(pq, k, all, Admitted(visited, isMember))
    ensures Walked(order, 0, clusters, query, heapFactor, isMember, visited, visited, pq, k, all)
  {
  }

  lemma WalkSkips(order: seq<nat>, n: nat, scores: seq<real>, clusters: seq<Cluster>, query: Row, heapFactor: real,
                  isMember: nat -> bool, before: set<nat>, visited: set<nat>, pq: seq<Item>, k: nat, all: seq<real>)
    requires Walked(order, n, clusters, query, heapFactor, isMember, before, visited, pq, k, all)
    requires n < |order| && order[n] < |clusters| && ScoredBy(scores, clusters, query)
    requires |pq| == k > 0 && scores[order[n]] * heapFactor < pq[0].score
    ensures Walked(order, n + 1, clusters, query, heapFactor, isMember, before, visited, pq, k, all)
  {
    hide Holds;
    FinishNext(order, n, clusters, query, heapFactor, visited, pq, k);
  }

  lemma WalkVisits(order: seq<nat>, n: nat, clusters: seq<Cluster>, query: Row, heapFactor: real, isMember: nat -> bool,
                   before: set<nat>, visited: set<nat>, pq: seq<Item>, k: nat, all: seq<real>,
                   nowVisited: set<nat>, nowPq: seq<Item>)
    requires Walked(order, n, clusters, query, heapFactor, isMember, before, visited, pq, k, all)
    requires n < |order| && order[n] < |clusters|
    requires Holds(nowPq, k, all, Admitted(nowVisited, isMember)) && Raised(pq, nowPq, k)
    requires forall d: nat :: d in nowVisited <==> d in visited || d in clusters[order[n]].docs
    ensures Walked(order, n + 1, clusters, query, heapFactor, isMember, before, nowVisited, nowPq, k, all)
  {
    hide Holds;
    StaysFinishedUpTo(order, n, clusters, query, heapFactor, visited, pq, k, nowVisited, nowPq);
    FromCluster(visited, before, clusters, order[n], nowVisited);
    FinishNext(order, n, clusters, query, heapFactor, nowVisited, nowPq, k);
  }

  lemma WalkHolds(order: seq<nat>, n: nat, clusters: seq<Cluster>, query: Row, heapFactor: real, isMember: nat -> bool,
                  before: set<nat>, visited: set<nat>, pq: seq<Item>, k: nat, all: seq<real>)
    requires Walked(order, n, clusters, query, heapFactor, isMember, before, visited, pq, k, all)
    ensures Holds(pq, k, all, Admitted(visited, isMember)) && before <= visited && From(visited, before, clusters)
  {
  }

  lemma WalkBreaks(order: seq<nat>, n: nat, scores: seq<real>, clusters: seq<Cluster>, query: Row, heapFactor: real,
                   isMember: nat -> bool, before: set<nat>, visited: set<nat>, pq: seq<Item>, k: nat, all: seq<real>)
    requires Walked(order, n, clusters, query, heapFactor, isMember, before, visited, pq, k, all)
    requires IsOrder(order, scores, true) && ScoredBy(scores, clusters, query)
    requires n < |order| && |pq| == k > 0 && scores[order[n]] * heapFactor < pq[0].score
    ensures Holds(pq, k, all, Admitted(visited, isMember)) && before <= visited && From(visited, before, clusters)
    ensures heapFactor >= 0.0 ==> AllFinished(clusters, query, heapFactor, visited, pq, k)
  {
    hide Holds;
    if heapFactor >= 0.0 {
      BreakFinishes(order, n, scores, clusters, query, heapFactor, visited, pq, k);
    }
  }

  lemma WalkEnds(order: seq<nat>, scores: seq<real>, firstList: bool, clusters: seq<Cluster>, query: Row, heapFactor: real,
                 isMember: nat -> bool, before: set<nat>, visited: set<nat>, pq: seq<Item>, k: nat, all: seq<real>)
    requires Walked(order, |order|, clusters, query, heapFactor, isMember, before, visited, pq, k, all)
    requires IsOrder(order, scores, firstList) && |scores| == |clusters|
    ensures Holds(pq, k, all, Admitted(visited, isMember)) && before <= visited && From(visited, before, clusters)
    ensures AllFinished(clusters, query, heapFactor, visited, pq, k)
  {
    hide Holds;
    OrderFinished(order, scores, firstList, clusters, query, heapFactor, visited, pq, k);
  }

  /** Walks one list's clusters, breaking off (sorted) or passing over (unsorted) what cannot contribute. */
  method QuerySingleInvertedList(csr: Csr, list: Clusters.InvertedListClusters, dense: array<real>, query: Row,
                                 heapFactor: real, firstList: bool, isMember: nat -> bool, heap: TopKHolder,
                                 visited: set<nat>, ghost weights: Row, ghost all: seq<real>, ghost ctx: WalkContext)
    returns (nowVisited: set<nat>)
    requires csr.Valid() && all == InvertedIndex.DocScores(csr.Rows(), weights)
    requires forall d :: 0 <= d < csr.Count() ==> TermsBelow(csr.Row(d), dense.Length)
    requires Scattered(dense[..], weights) && ctx == WalkContext(query, heapFactor, isMember, heap.k, all)
    requires list.Valid() && DocsBelow(ClustersOf(list), csr.Count())
    requires heap.Valid() && Holds(heap.pq, heap.k, all, Admitted(visited, isMember))
    modifies heap
    ensures heap.Valid() && Holds(heap.pq, heap.k, all, Admitted(nowVisited, isMember))
    ensures Raised(old(heap.pq), heap.pq, heap.k) && visited <= nowVisited
    ensures From(nowVisited, visited, ClustersOf(list))
    ensures heapFactor >= 0.0 ==> AllFinished(ClustersOf(list), query, heapFactor, nowVisited, heap.pq, heap.k)
    ensures IsWalk(State(visited, old(heap.pq)), ClustersOf(list), firstList, ctx, State(nowVisited, heap.pq))
  {
    ghost var clusters := ClustersOf(list);
    if list.nClusters == 0 {
      assert From(visited, visited, clusters) && AllFinished(clusters, query, heapFactor, visited, heap.pq, heap.k);
      NoClusters(State(visited, heap.pq), clusters, firstList, ctx);
      return visited;
    }
    var scores := list.ScoreSummariesTransposed(query);
    assert ScoredBy(scores, clusters, query);
    hide Holds, Scattered, TermsBelow, Dot, AllFinished, From, ScoredBy, IsWalk;
    var order := ReorderClusters(scores, firstList);
    nowVisited := WalkClusters(csr, list, scores, order, dense, query, heapFactor, firstList, isMember, heap, visited, clusters, weights, all, ctx);
  }

  lemma NoClusters(s: State, clusters: seq<Cluster>, firstList: bool, ctx: WalkContext)
    requires ctx.k > 0 && clusters == []
    ensures IsWalk(s, clusters, firstList, ctx, s)
  {
    TraceEnds(s, clusters, [], 0, [], firstList, ctx, s);
  }

  /** Scores the cluster that is next in the order. */
  method VisitCluster(csr: Csr, docs: seq<nat>, dense: array<real>, ghost query: Row, isMember: nat -> bool, heap: TopKHolder,
                      visited: set<nat>, ghost order: seq<nat>, ghost n: nat, ghost clusters: seq<Cluster>,
                      ghost heapFactor: real, ghost before: set<nat>, ghost weights: Row, ghost all: seq<real>, ghost ctx: WalkContext)
    returns (nowVisited: set<nat>)
    requires csr.Valid() && all == InvertedIndex.DocScores(csr.Rows(), weights)
    requires ctx.isMember == isMember && ctx.k == heap.k && ctx.all == all
    requires forall d :: 0 <= d < csr.Count() ==> TermsBelow(csr.Row(d), dense.Length)
    requires Scattered(dense[..], weights)
    requires n < |order| && order[n] < |clusters| && docs == clusters[order[n]].docs && InRange(docs, csr.Count())
    requires heap.Valid() && Walked(order, n, clusters, query, heapFactor, isMember, before, visited, heap.pq, heap.k, all)
    modifies heap
    ensures heap.Valid() && Raised(old(heap.pq), heap.pq, heap.k)
    ensures Walked(order, n + 1, clusters, query, heapFactor, isMember, before, nowVisited, heap.pq, heap.k, all)
    ensures State(nowVisited, heap.pq) == MeetAll(State(visited, old(heap.pq)), docs, ctx)
  {
    ghost var wasPq := heap.pq;
    WalkHolds(order, n, clusters, query, heapFactor, isMember, before, visited, heap.pq, heap.k, all);
    hide Holds, Scattered, TermsBelow, Walked;
    nowVisited := ScoreDocs(csr, docs, dense, weights, isMember, heap, visited, all, ctx);
    WalkVisits(order, n, clusters, query, heapFactor, isMember, before, visited, wasPq, heap.k, all, nowVisited, heap.pq);
  }

  lemma ScoreIsBound(scores: seq<real>, clusters: seq<Cluster>, query: Row, c: nat)
    requires ScoredBy(scores, clusters, query) && c < |clusters|
    ensures scores[c] == Dot(clusters[c].summary, query)
  {
  }

  lemma OrderRange(order: seq<nat>, scores: seq<real>, firstList: bool, clusters: seq<Cluster>, query: Row)
    requires ScoredBy(scores, clusters, query) && IsOrder(order, scores, firstList)
    ensures |scores| == |clusters| && forall i :: 0 <= i < |order| ==> order[i] < |scores|
  {
  }

  method WalkClusters(csr: Csr, list: Clusters.InvertedListClusters, scores: seq<real>, order: seq<nat>, dense: array<real>,
                      ghost query: Row, heapFactor: real, firstList: bool, isMember: nat -> bool, heap: TopKHolder,
                      visited: set<nat>, ghost clusters: seq<Cluster>, ghost weights: Row, ghost all: seq<real>, ghost ctx: WalkContext)
    returns (nowVisited: set<nat>)
    requires csr.Valid() && all == InvertedIndex.DocScores(csr.Rows(), weights)
    requires forall d :: 0 <= d < csr.Count() ==> TermsBelow(csr.Row(d), dense.Length)
    requires Scattered(dense[..], weights) && ctx == WalkContext(query, heapFactor, isMember, heap.k, all)
    requires list.ValidMembership() && DocsBelow(clusters, csr.Count())
    requires forall c :: 0 <= c < |clusters| ==> clusters[c].docs == list.GetDocs(c)
    requires ScoredBy(scores, clusters, query) && |scores| == |clusters| && IsOrder(order, scores, firstList)
    requires heap.Valid() && Holds(heap.pq, heap.k, all, Admitted(visited, isMember))
    modifies heap
    ensures heap.Valid() && Holds(heap.pq, heap.k, all, Admitted(nowVisited, isMember))
    ensures Raised(old(heap.pq), heap.pq, heap.k) && visited <= nowVisited
    ensures From(nowVisited, visited, clusters)
    ensures heapFactor >= 0.0 ==> AllFinished(clusters, query, heapFactor, nowVisited, heap.pq, heap.k)
    ensures IsWalk(State(visited, old(heap.pq)), clusters, firstList, ctx, State(nowVisited, heap.pq))
  {
    hide Holds, Scattered, TermsBelow, AllFinished, From, Walked, ScoredBy, IsOrder, ValidOffsets, IsWalk, Traced, MeetAll;
    nowVisited := visited;
    ghost var k, start := heap.k, State(visited, heap.pq);
    TraceStarts(start, clusters, order, scores, firstList, ctx);
    WalkStarts(order, clusters, query, heapFactor, isMember, visited, heap.pq, k, all);
    OrderRange(order, scores, firstList, clusters, query);
    for i := 0 to |order|
      invariant heap.Valid() && Raised(old(heap.pq), heap.pq, k)
      invariant Walked(order, i, clusters, query, heapFactor, isMember, visited, nowVisited, heap.pq, k, all)
      invariant Traced(start, clusters, order, i, firstList, ctx, State(nowVisited, heap.pq))
    {
      var c := order[i];
      ghost var before := State(nowVisited, heap.pq);
      ScoreIsBound(scores, clusters, query, c);
      if heap.Full() && scores[c] * heapFactor < heap.PeekScore() {
        if firstList {
          WalkBreaks(order, i, scores, clusters, query, heapFactor, isMember, visited, nowVisited, heap.pq, k, all);
          TraceEnds(start, clusters, order, i, scores, firstList, ctx, before);
          return;
        }
        WalkSkips(order, i, scores, clusters, query, heapFactor, isMember, visited, nowVisited, heap.pq, k, all);
        TraceSkips(start, clusters, order, i, ctx, before);
      } else {
        nowVisited := VisitCluster(csr, list.GetDocs(c), dense, query, isMember, heap, nowVisited,
                                   order, i, clusters, heapFactor, visited, weights, all, ctx);
        TraceVisits(start, clusters, order, i, firstList, ctx, before, State(nowVisited, heap.pq));
      }
    }
    TraceEnds(start, clusters, order, |order|, scores, firstList, ctx, State(nowVisited, heap.pq));
    WalkEnds(order, scores, firstList, clusters, query, heapFactor, isMember, visited, nowVisited, heap.pq, k, all);
  }

  // ---------------------------------------------------------------- one query

  ghost predicate ListsFinished(lists: seq<seq<Cluster>>, cuts: seq<nat>, n: nat, query: Row, heapFactor: real,
                                visited: set<nat>, pq: seq<Item>, k: nat) {
    n <= |cuts| && forall i :: 0 <= i < n && cuts[i] < |lists| ==> AllFinished(lists[cuts[i]], query, heapFactor, visited, pq, k)
  }

  ghost predicate AllReached(visited: set<nat>, lists: seq<seq<Cluster>>, cuts: seq<nat>) {
    forall d :: d in visited ==> Reached(lists, cuts, d)
  }

  /**
   * What a query has established after its first n cut terms: the heap is an exact top-k of the
   * admitted documents it visited, and every cluster of those terms' lists was either visited whole
   * or bounded below the heap's minimum.
   */
  ghost predicate Searched(lists: seq<seq<Cluster>>, cuts: seq<nat>, n: nat, query: Row, heapFactor: real, isMember: nat -> bool,
                           visited: set<nat>, pq: seq<Item>, k: nat, all: seq<real>) {
    && Holds(pq, k, all, Admitted(visited, isMember))
    && AllReached(visited, lists, cuts)
    && (heapFactor >= 0.0 ==> ListsFinished(lists, cuts, n, query, heapFactor, visited, pq, k))
  }

  lemma SearchStarts(lists: seq<seq<Cluster>>, cuts: seq<nat>, query: Row, heapFactor: real, isMember: nat -> bool,
                     k: nat, all: seq<real>)
    requires k > 0
    ensures Searched(lists, cuts, 0, query, heapFactor, isMember, {}, [], k, all)
  {
  }

  lemma SearchSkips(lists: seq<seq<Cluster>>, cuts: seq<nat>, n: nat, query: Row, heapFactor: real, isMember: nat -> bool,
                    visited: set<nat>, pq: seq<Item>, k: nat, all: seq<real>)
    requires Searched(lists, cuts, n, query, heapFactor, isMember, visited, pq, k, all)
    requires n < |cuts| && cuts[n] >= |lists|
    ensures Searched(lists, cuts, n + 1, query, heapFactor, isMember, visited, pq, k, all)
  {
    hide Holds;
  }

  lemma StaysAllFinished(clusters: seq<Cluster>, query: Row, heapFactor: real, visited: set<nat>, pq: seq<Item>, k: nat,
                         laterVisited: set<nat>, laterPq: seq<Item>)
    requires AllFinished(clusters, query, heapFactor, visited, pq, k)
    requires visited <= laterVisited && Raised(pq, laterPq, k)
    ensures AllFinished(clusters, query, heapFactor, laterVisited, laterPq, k)
  {
    forall c | 0 <= c < |clusters|
      ensures Finished(clusters[c], query, heapFactor, laterVisited, laterPq, k)
    {
      StaysFinished(clusters[c], query, heapFactor, visited, pq, k, laterVisited, laterPq);
    }
  }

  lemma SearchWalks(lists: seq<seq<Cluster>>, cuts: seq<nat>, n: nat, query: Row, heapFactor: real, isMember: nat -> bool,
                    visited: set<nat>, pq: seq<Item>, k: nat, all: seq<real>, nowVisited: set<nat>, nowPq: seq<Item>)
    requires Searched(lists, cuts, n, query, heapFactor, isMember, visited, pq, k, all)
    requires n < |cuts| && cuts[n] < |lists|
    requires Holds(nowPq, k, all, Admitted(nowVisited, isMember)) && Raised(pq, nowPq, k)
    requires visited <= nowVisited && From(nowVisited, visited, lists[cuts[n]])
    requires heapFactor >= 0.0 ==> AllFinished(lists[cuts[n]], query, heapFactor, nowVisited, nowPq, k)
    ensures Searched(lists, cuts, n + 1, query, heapFactor, isMember, nowVisited, nowPq, k, all)
  {
    hide Holds, Inside, AllFinished, Raised;
    forall d: nat | d in nowVisited
      ensures Reached(lists, cuts, d)
    {
    }
    if heapFactor >= 0.0 {
      forall i | 0 <= i < n && cuts[i] < |lists|
        ensures AllFinished(lists[cuts[i]], query, heapFactor, nowVisited, nowPq, k)
      {
        StaysAllFinished(lists[cuts[i]], query, heapFactor, visited, pq, k, nowVisited, nowPq);
      }
    }
  }

  ghost predicate ListsBelow(lists: seq<seq<Cluster>>, n: nat) {
    forall t :: 0 <= t < |lists| ==> DocsBelow(lists[t], n)
  }

  /** The rows of length k hold a drained queue that the run over all cut terms has ended with. */
  ghost predicate IsSeismicReply(scores: seq<real>, labels: seq<int>, lists: seq<seq<Cluster>>, cuts: seq<nat>, query: Row,
                                 heapFactor: real, isMember: nat -> bool, k: nat, all: seq<real>) {
    && k > 0 && ListsBelow(lists, |all|)
    && exists visited: set<nat>, pq: seq<Item> ::
      && Searched(lists, cuts, |cuts|, query, heapFactor, isMember, visited, pq, k, all)
      && IsRun(lists, cuts, |cuts|, WalkContext(query, heapFactor, isMember, k, all), State(visited, pq))
      && IsPaddedAnswer(scores, labels, Ids(pq), all, k)
  }

  ghost predicate ValidLists(lists: seq<Clusters.InvertedListClusters>, n: nat)
    reads lists
  {
    forall t :: 0 <= t < |lists| ==> lists[t].Valid() && DocsBelow(ClustersOf(lists[t]), n)
  }

  /**
   * One query over the clustered lists; the dense buffer is all zero again afterwards. Documents are
   * scored with the last weight of a term that repeats, as the buffer keeps it.
   */
  method SingleQuery(csr: Csr, lists: seq<Clusters.InvertedListClusters>, dense: array<real>, query: Row, cuts: seq<nat>,
                     k: int, heapFactor: real, isMember: nat -> bool) returns (result: Result<(seq<real>, seq<int>)>)
    requires csr.Valid() && forall d :: 0 <= d < csr.Count() ==> TermsBelow(csr.Row(d), dense.Length)
    requires ValidLists(lists, csr.Count())
    requires AllZero(dense[..]) && TermsBelow(query, dense.Length)
    modifies dense
    ensures result.Failed? <==> csr.Count() > 0 && k <= 0
    ensures result.Ok? ==> AllZero(dense[..])
    ensures csr.Count() == 0 ==> result == Ok(([], []))
    ensures csr.Count() > 0 && result.Ok? ==>
              IsSeismicReply(result.value.0, result.value.1, old(ListsOf(lists)), cuts, query, heapFactor, isMember, k,
                             InvertedIndex.DocScores(csr.Rows(), LastWeights(query)))
  {
    if csr.Count() == 0 {
      return Ok(([], []));
    }
    ghost var views := ListsOf(lists);
    Scatter(dense, query);
    if k <= 0 {
      return Failed("value must be positive");
    }
    ghost var weights := LastWeights(query);
    ghost var all := InvertedIndex.DocScores(csr.Rows(), weights);
    ViewsBelow(lists, csr.Count());
    var holder := new TopKHolder(k);
    ghost var visited := SearchLists(csr, lists, dense, query, cuts, heapFactor, isMember, holder, views, weights, all);
    ghost var pq := holder.pq;
    hide Searched, AllZero, TermsBelow, ValidLists, IsRun, ListsBelow;
    ClearScatter(dense, query);
    var scores, labels := ExactMatcher.DrainPadded(holder);
    ReplyHolds(scores, labels, pq, views, cuts, query, heapFactor, isMember, visited, k, all);
    return Ok((scores, labels));
  }

  lemma ReplyHolds(scores: seq<real>, labels: seq<int>, pq: seq<Item>, lists: seq<seq<Cluster>>, cuts: seq<nat>, query: Row,
                   heapFactor: real, isMember: nat -> bool, visited: set<nat>, k: nat, all: seq<real>)
    requires k > 0 && ListsBelow(lists, |all|)
    requires Searched(lists, cuts, |cuts|, query, heapFactor, isMember, visited, pq, k, all)
    requires IsRun(lists, cuts, |cuts|, WalkContext(query, heapFactor, isMember, k, all), State(visited, pq))
    requires ExactMatcher.Lists(scores, labels, pq, k)
    ensures IsSeismicReply(scores, labels, lists, cuts, query, heapFactor, isMember, k, all)
  {
    hide IsRun;
    IdsListItems(pq, k, all, Admitted(visited, isMember));
    assert IsPaddedAnswer(scores, labels, Ids(pq), all, k);
  }

  /** Walks the lists of the cut terms in order; a term past the index has none. */
  method SearchLists(csr: Csr, lists: seq<Clusters.InvertedListClusters>, dense: array<real>, query: Row, cuts: seq<nat>,
                     heapFactor: real, isMember: nat -> bool, holder: TopKHolder, ghost views: seq<seq<Cluster>>, ghost weights: Row, ghost all: seq<real>)
    returns (ghost explored: set<nat>)
    requires csr.Valid() && all == InvertedIndex.DocScores(csr.Rows(), weights)
    requires forall d :: 0 <= d < csr.Count() ==> TermsBelow(csr.Row(d), dense.Length)
    requires ValidLists(lists, csr.Count()) && views == ListsOf(lists) && Scattered(dense[..], weights)
    requires holder.Valid() && holder.pq == [] && ListsBelow(views, |all|)
    modifies holder
    ensures holder.Valid()
    ensures IsRun(views, cuts, |cuts|, WalkContext(query, heapFactor, isMember, holder.k, all), State(explored, holder.pq))
    ensures Searched(views, cuts, |cuts|, query, heapFactor, isMember, explored, holder.pq, holder.k, all)
  {
    hide Searched, Scattered, TermsBelow, From, AllFinished, IsWalk, IsRun, NoneReached, Holds, Raised, DocsBelow, Csr.Valid;
    var visited: set<nat> := {};
    var firstList := true;
    ghost var k := holder.k;
    SearchStarts(views, cuts, query, heapFactor, isMember, k, all);
    ghost var ctx := WalkContext(query, heapFactor, isMember, k, all);
    RunStarts(views, cuts, ctx);
    for i := 0 to |cuts|
      invariant holder.Valid()
      invariant Searched(views, cuts, i, query, heapFactor, isMember, visited, holder.pq, k, all)
      invariant IsRun(views, cuts, i, ctx, State(visited, holder.pq))
      invariant firstList == NoneReached(cuts, i, views)
    {
      var term := cuts[i];
      if term >= |lists| {
        SearchSkips(views, cuts, i, query, heapFactor, isMember, visited, holder.pq, k, all);
        RunSkips(views, cuts, i, ctx, State(visited, holder.pq));
      } else {
        ghost var wasVisited, wasPq := visited, holder.pq;
        SearchHolds(views, cuts, i, query, heapFactor, isMember, visited, holder.pq, k, all);
        visited := QuerySingleInvertedList(csr, lists[term], dense, query, heapFactor, firstList, isMember, holder, visited, weights, all, ctx);
        SearchWalks(views, cuts, i, query, heapFactor, isMember, wasVisited, wasPq, k, all, visited, holder.pq);
        RunWalks(views, cuts, i, ctx, State(wasVisited, wasPq), State(visited, holder.pq));
        firstList := false;
      }
    }
    explored := visited;
  }

  lemma ViewsBelow(lists: seq<Clusters.InvertedListClusters>, n: nat)
    requires ValidLists(lists, n)
    ensures ListsBelow(ListsOf(lists), n)
  {
  }

  lemma SearchHolds(lists: seq<seq<Cluster>>, cuts: seq<nat>, n: nat, query: Row, heapFactor: real, isMember: nat -> bool,
                    visited: set<nat>, pq: seq<Item>, k: nat, all: seq<real>)
    requires Searched(lists, cuts, n, query, heapFactor, isMember, visited, pq, k, all)
    ensures Holds(pq, k, all, Admitted(visited, isMember))
  {
  }

  // ---------------------------------------------------------------- the order of a walk shows

  const TWO_TERMS: Row := [Entry(0, 1.0), Entry(1, 1.0)]

  const HEAVY: Row := [Entry(1, 2.0), Entry(9, 10.0)]
  const LIGHT: Row := [Entry(1, 1.0)]

  lemma HeavyPool()
    ensures Gather([HEAVY, LIGHT], [0]) == HEAVY && PoolFor(HEAVY) == HEAVY
  {
    assert HEAVY[..1] == [Entry(1, 2.0)] && HEAVY[..0] == [];
    assert FirstTouches(HEAVY[..1]) == [1] && FirstTouches(HEAVY) == [1, 9];
    assert MaxAt(HEAVY[..1], 1) == 2.0 && MaxAt(HEAVY[..1], 9) == 0.0;
  }

  lemma LightPool()
    ensures Gather([HEAVY, LIGHT], [1]) == LIGHT && PoolFor(LIGHT) == LIGHT
  {
    assert LIGHT[..0] == [] && FirstTouches(LIGHT) == [1];
  }

  lemma TwoMasses()
    ensures Mass(HEAVY) == 12.0 && Mass(LIGHT) == 1.0 && Mass([Entry(9, 10.0)]) == 10.0
  {
    assert HEAVY[..1] == [Entry(1, 2.0)] && HEAVY[..0] == [] && LIGHT[..0] == [] && [Entry(9, 10.0)][..0] == [];
  }

  lemma SortedPair(x: Entry, y: Entry, key: Entry -> real)
    requires key(y) < key(x)
    ensures Sorting.Sorted([x], key) == [x] && Sorting.Sorted([x, y], key) == [y, x]
  {
    assert [x, y][..1] == [x] && [x][..0] == [];
    assert Sorting.Sorted([x], key) == [x];
  }

  /** At the default alpha the first document's summary loses the term the query asks for. */
  lemma TwoSummaries()
    ensures SummaryFor([HEAVY, LIGHT], [0], 0.4) == [Entry(9, 10.0)]
    ensures SummaryFor([HEAVY, LIGHT], [1], 0.4) == LIGHT
  {
    hide Gather, PoolFor, Mass, Sorting.Sorted;
    HeavyPool();
    LightPool();
    TwoMasses();
    SortedPair(HEAVY[0], HEAVY[1], ByWeight);
    SortedPair(HEAVY[1], HEAVY[0], ByTerm);
    SortedPair(LIGHT[0], Entry(0, 2.0), ByWeight);
    SortedPair(LIGHT[0], Entry(0, 2.0), ByTerm);
    var order := [HEAVY[1], HEAVY[0]];
    assert order[..1] == [Entry(9, 10.0)] && LIGHT[..1] == LIGHT;
    assert CutFrom(order, 12.0, 0.4, 0) == 1 && CutFrom(LIGHT, 1.0, 0.4, 0) == 1;
  }

  lemma TwoTerms(row: Row)
    ensures LastWeights(TWO_TERMS) == TWO_TERMS
    ensures Dot(row, TWO_TERMS) == Weighted(1.0, row, 0) + Weighted(1.0, row, 1)
  {
    assert TWO_TERMS[..1] == [Entry(0, 1.0)] && TWO_TERMS[..0] == [];
    assert LastWeights(TWO_TERMS[..1]) == TWO_TERMS[..1];
    assert Without(TWO_TERMS[..1], 1) == TWO_TERMS[..1];
    assert Dot(row, TWO_TERMS[..1]) == Weighted(1.0, row, 0);
  }

  lemma TwoScores()
    ensures InvertedIndex.DocScores([HEAVY, LIGHT], LastWeights(TWO_TERMS)) == [2.0, 1.0]
    ensures Dot([Entry(9, 10.0)], TWO_TERMS) == 0.0 && Dot(LIGHT, TWO_TERMS) == 1.0
  {
    hide Dot, LastWeights;
    TwoTerms(HEAVY);
    TwoTerms(LIGHT);
    TwoTerms([Entry(9, 10.0)]);
    assert HEAVY[..1] == [Entry(1, 2.0)] && HEAVY[..0] == [] && LIGHT[..0] == [] && [Entry(9, 10.0)][..0] == [];
    assert Weighted(1.0, HEAVY[..1], 0) == 0.0 && Weighted(1.0, HEAVY[..1], 1) == 2.0;
  }

  /** A list without clusters takes the turn of the first list all the same. */
  lemma EmptyListFirst(lists: seq<seq<Cluster>>, ctx: WalkContext, after: State)
    requires ctx.k > 0 && ListsBelow(lists, |ctx.all|) && |lists| == 2 && lists[0] == []
    requires IsRun(lists, [0, 1], 2, ctx, after)
    ensures after == PassedFirst(State({}, []), lists[1], |lists[1]|, ctx)
  {
    hide MeetAll, Beaten, IsRun, PassedFirst, StopsAt, ScoredFirst, IsDescending;
    var cuts := [0, 1];
    var s := LastTurn(lists, cuts, 2, ctx, after);
    var start := LastTurn(lists, cuts, 1, ctx, s);
    NothingRun(lists, cuts, ctx, start);
    NothingWalked(start, ctx, s);
    assert cuts[0] < |lists| && !NoneReached(cuts, 1, lists);
  }

  lemma LastTurn(lists: seq<seq<Cluster>>, cuts: seq<nat>, n: nat, ctx: WalkContext, after: State) returns (s: State)
    requires ctx.k > 0 && ListsBelow(lists, |ctx.all|) && 0 < n <= |cuts| && IsRun(lists, cuts, n, ctx, after)
    ensures IsRun(lists, cuts, n - 1, ctx, s) && IsTurn(lists, cuts, n, ctx, s, after)
  {
    hide IsTurn;
    s :| IsRun(lists, cuts, n - 1, ctx, s) && IsTurn(lists, cuts, n, ctx, s, after);
  }

  lemma NothingRun(lists: seq<seq<Cluster>>, cuts: seq<nat>, ctx: WalkContext, s: State)
    requires ctx.k > 0 && ListsBelow(lists, |ctx.all|) && IsRun(lists, cuts, 0, ctx, s)
    ensures s == State({}, [])
  {
  }

  lemma NothingWalked(s: State, ctx: WalkContext, after: State)
    requires ctx.k > 0 && IsFirstWalk(s, [], ctx, after)
    ensures after == s
  {
  }

  lemma MeetOne(s: State, d: nat, ctx: WalkContext)
    requires ctx.k > 0 && d < |ctx.all|
    ensures MeetAll(s, [d], ctx) == MeetDoc(s, d, ctx)
  {
    assert [d][..0] == [];
    assert MeetAll(s, [d][..0], ctx) == s;
  }

  /**
   * Two documents, each a cluster of its own in the list of term 1, and an empty list before it: the
   * list is walked as stored, so the draws that seed the clusters decide which document is found.
   */
  lemma StoredOrderShows(scores: seq<real>, labels: seq<int>, first: nat, isMember: nat -> bool)
    requires first < 2 && isMember(0) && isMember(1)
    requires var lists := [[], SummarizedGroups([HEAVY, LIGHT], [[first], [1 - first]], 0.4)];
             IsSeismicReply(scores, labels, lists, [0, 1], TWO_TERMS, 1.0, isMember, 1,
                            InvertedIndex.DocScores([HEAVY, LIGHT], LastWeights(TWO_TERMS)))
    ensures labels == [first] && scores == [if first == 0 then 2.0 else 1.0]
  {
    hide Dot, SummaryFor, LastWeights, InvertedIndex.DocScores, IsRun, PassedFirst, IsSeismicReply;
    TwoSummaries();
    TwoScores();
    var clusters := SummarizedGroups([HEAVY, LIGHT], [[first], [1 - first]], 0.4);
    assert DocsBelow(clusters, 2);
    var ctx := WalkContext(TWO_TERMS, 1.0, isMember, 1, [2.0, 1.0]);
    var after := ReplyRun(scores, labels, [[], clusters], [0, 1], ctx);
    EmptyListFirst([[], clusters], ctx, after);
    TwoClusters(clusters, first, ctx, after);
    assert Ids(after.pq) == [first];
  }

  /** The run a reply was drained from. */
  lemma ReplyRun(scores: seq<real>, labels: seq<int>, lists: seq<seq<Cluster>>, cuts: seq<nat>, ctx: WalkContext)
    returns (after: State)
    requires IsSeismicReply(scores, labels, lists, cuts, ctx.query, ctx.heapFactor, ctx.isMember, ctx.k, ctx.all)
    ensures ctx.k > 0 && ListsBelow(lists, |ctx.all|) && IsRun(lists, cuts, |cuts|, ctx, after)
    ensures IsPaddedAnswer(scores, labels, Ids(after.pq), ctx.all, ctx.k)
  {
    hide IsRun, Searched;
    var visited: set<nat>, pq: seq<Item> :|
      && Searched(lists, cuts, |cuts|, ctx.query, ctx.heapFactor, ctx.isMember, visited, pq, ctx.k, ctx.all)
      && IsRun(lists, cuts, |cuts|, WalkContext(ctx.query, ctx.heapFactor, ctx.isMember, ctx.k, ctx.all), State(visited, pq))
      && IsPaddedAnswer(scores, labels, Ids(pq), ctx.all, ctx.k);
    after := State(visited, pq);
  }

  lemma TwoClusters(clusters: seq<Cluster>, first: nat, ctx: WalkContext, after: State)
    requires first < 2 && ctx.isMember(0) && ctx.isMember(1) && ctx.k == 1 && ctx.all == [2.0, 1.0] && ctx.heapFactor == 1.0
    requires |clusters| == 2 && clusters[0].docs == [first] && clusters[1].docs == [1 - first]
    requires forall c :: 0 <= c < 2 ==> Dot(clusters[c].summary, ctx.query) == clusters[c].docs[0] as real
    requires after == PassedFirst(State({}, []), clusters, 2, ctx)
    ensures after.pq == [Item(ctx.all[first], first)]
  {
    hide Dot;
    var start := State({}, []);
    MeetOne(start, first, ctx);
    hide MeetAll;
    var one := PassedFirst(start, clusters, 1, ctx);
    assert PassedFirst(start, clusters, 0, ctx) == start;
    assert one == MeetDoc(start, first, ctx);
    assert one.pq == [Item(ctx.all[first], first)];
    assert Beaten(one, clusters[1], ctx);
  }

  // ---------------------------------------------------------------- pruning loses nothing

  /** The admitted documents that some cut term's clusters hold. */
  ghost function Candidates(lists: seq<seq<Cluster>>, cuts: seq<nat>, isMember: nat -> bool, n: nat): set<nat> {
    set d: nat | d < n && Reached(lists, cuts, d) && isMember(d)
  }

  /** The summary of a cluster bounds its documents, relaxed or not. */
  lemma BoundCovers(cluster: Cluster, rows: seq<Row>, query: Row, alpha: real, heapFactor: real, d: nat)
    requires InRange(cluster.docs, |rows|) && SummaryOf(cluster.summary, rows, cluster.docs, alpha)
    requires alpha >= 1.0 && heapFactor >= 1.0 && NonNegative(query) && DistinctRows(rows)
    requires d in cluster.docs
    ensures Dot(rows[d], LastWeights(query)) <= Bound(cluster, query, heapFactor)
  {
    hide Dot, LastWeights, SummaryOf, DistinctTerms, NonNegative;
    var j :| 0 <= j < |cluster.docs| && cluster.docs[j] == d;
    LastWeightsNonNegative(query);
    SummaryBounds(cluster.summary, rows, cluster.docs, alpha, j, LastWeights(query));
    SummaryBounds(cluster.summary, rows, cluster.docs, alpha, j, query);
    KeptScoresLess(cluster.summary, query);
    ScaleMonotone(Dot(cluster.summary, query), 1.0, heapFactor);
  }

  /** A document of a finished list was visited, or the full heap beats it. */
  lemma FinishedCovers(clusters: seq<Cluster>, rows: seq<Row>, query: Row, alpha: real, heapFactor: real,
                       visited: set<nat>, pq: seq<Item>, k: nat, d: nat)
    requires AllFinished(clusters, query, heapFactor, visited, pq, k) && Summarized(clusters, rows, alpha)
    requires alpha >= 1.0 && heapFactor >= 1.0 && NonNegative(query) && DistinctRows(rows)
    requires Inside(clusters, d) && d < |rows|
    ensures d in visited || (|pq| == k > 0 && Dot(rows[d], LastWeights(query)) <= pq[0].score)
  {
    var c :| 0 <= c < |clusters| && d in clusters[c].docs;
    assert Finished(clusters[c], query, heapFactor, visited, pq, k);
    if d !in visited {
      BoundCovers(clusters[c], rows, query, alpha, heapFactor, d);
    }
  }

  /**
   * With full summaries (alpha >= 1), no relaxation below the bound (heap factor >= 1) and
   * non-negative weights, pruning is lossless: the reply is the exact top-k over every admitted
   * document in the cut terms' clusters.
   */
  lemma LosslessPruning(scores: seq<real>, labels: seq<int>, lists: seq<seq<Cluster>>, cuts: seq<nat>, query: Row,
                        heapFactor: real, isMember: nat -> bool, k: nat, rows: seq<Row>, alpha: real)
    requires IsSeismicReply(scores, labels, lists, cuts, query, heapFactor, isMember, k, InvertedIndex.DocScores(rows, LastWeights(query)))
    requires alpha >= 1.0 && heapFactor >= 1.0 && NonNegative(query) && DistinctRows(rows)
    requires forall t :: 0 <= t < |lists| ==> Summarized(lists[t], rows, alpha)
    ensures Answers(scores, labels, Candidates(lists, cuts, isMember, |rows|), InvertedIndex.DocScores(rows, LastWeights(query)), k)
  {
    var all := InvertedIndex.DocScores(rows, LastWeights(query));
    var visited: set<nat>, pq: seq<Item> :|
      && Searched(lists, cuts, |cuts|, query, heapFactor, isMember, visited, pq, k, all)
      && IsRun(lists, cuts, |cuts|, WalkContext(query, heapFactor, isMember, k, all), State(visited, pq))
      && IsPaddedAnswer(scores, labels, Ids(pq), all, k);
    hide IsRun;
    var candidates := Candidates(lists, cuts, isMember, |rows|);
    forall d | d in candidates
      ensures d in visited || (|pq| == k > 0 && all[d] <= pq[0].score)
    {
      var i :| 0 <= i < |cuts| && cuts[i] < |lists| && Inside(lists[cuts[i]], d);
      FinishedCovers(lists[cuts[i]], rows, query, alpha, heapFactor, visited, pq, k, d);
    }
    HoldsWider(pq, k, all, Admitted(visited, isMember), candidates);
    DrainIsTopK(pq, k, all, candidates);
  }

  /** Candidates the full heap beats can be added to what it has settled. */
  lemma HoldsWider(pq: seq<Item>, k: nat, all: seq<real>, settled: set<nat>, wider: set<nat>)
    requires Holds(pq, k, all, settled) && settled <= wider
    requires forall d :: d in wider ==> d < |all|
    requires forall d :: d in wider ==> d in settled || (|pq| == k > 0 && all[d] <= pq[0].score)
    ensures Holds(pq, k, all, wider)
  {
  }

  // ---------------------------------------------------------------- agreement with the inverted index

  /** Every term's list is clustered from the corpus, and pruning its postings would drop none. */
  ghost predicate ClusteredWhole(lists: seq<seq<Cluster>>, rows: seq<Row>, params: Parameters) {
    forall t :: 0 <= t < |lists| ==>
      IsClusteredList(lists[t], rows, PostingsOf(rows, t), params) && KeepsAll(params.lam, PostingsOf(rows, t))
  }

  ghost predicate SharesTerm(row: Row, query: Row) {
    exists i :: 0 <= i < |query| && Carries(row, query[i].term)
  }

  /** An uncut query reaches exactly the documents that share a term with it. */
  lemma ReachedIffShared(lists: seq<seq<Cluster>>, rows: seq<Row>, params: Parameters, query: Row, cut: int, cuts: seq<nat>, d: nat)
    requires ClusteredWhole(lists, rows, params) && Corpus(rows, |lists|) && d < |rows|
    requires cut >= |query| && IsCutOf(cuts, query, cut)
    ensures Reached(lists, cuts, d) <==> SharesTerm(rows[d], query)
  {
    forall i | 0 <= i < |query|
      ensures (cuts[i] < |lists| && Inside(lists[cuts[i]], d)) <==> Carries(rows[d], query[i].term)
    {
      if cuts[i] < |lists| {
        ClustersHoldTerm(lists[cuts[i]], rows, cuts[i], params, d);
      }
    }
    hide ClusteredWhole, Inside, Carries;
    if i :| 0 <= i < |cuts| && cuts[i] < |lists| && Inside(lists[cuts[i]], d) {
      assert Carries(rows[d], query[i].term);
    }
    if i :| 0 <= i < |query| && Carries(rows[d], query[i].term) {
      assert cuts[i] < |lists| && Inside(lists[cuts[i]], d);
    }
  }

  /**
   * The clustered search and the inverted index return the same score rows when nothing is
   * approximated: full summaries, no relaxation, the query uncut and of distinct terms, no posting
   * pruned, and stored values and query weights positive.
   */
  lemma SeismicMatchesInverted(lists: seq<seq<Cluster>>, rows: seq<Row>, params: Parameters, query: Row, cut: int, cuts: seq<nat>,
                               heapFactor: real, isMember: nat -> bool, k: nat,
                               scores: seq<real>, labels: seq<int>, exactScores: seq<real>, exactLabels: seq<int>)
    requires ClusteredWhole(lists, rows, params) && Corpus(rows, |lists|)
    requires params.alpha >= 1.0 && heapFactor >= 1.0 && cut >= |query| && IsCutOf(cuts, query, cut)
    requires Positive(query) && DistinctTerms(query) && forall d :: 0 <= d < |rows| ==> Positive(rows[d])
    requires IsSeismicReply(scores, labels, lists, cuts, query, heapFactor, isMember, k,
                            InvertedIndex.DocScores(rows, LastWeights(query)))
    requires InvertedIndex.IsReply(Ok((exactScores, exactLabels)), rows, query, k, isMember)
    ensures scores == exactScores
  {
    hide IsSeismicReply, IsCutOf, LastWeights, InvertedIndex.DocScores, Dot, Answers, Candidates, PositiveOf;
    var all := InvertedIndex.DocScores(rows, query);
    LastWeightsDistinct(query);
    LosslessPruning(scores, labels, lists, cuts, query, heapFactor, isMember, k, rows, params.alpha);
    ReachedArePositive(lists, rows, params, query, cut, cuts, isMember);
    AnswersAgree(scores, labels, exactScores, exactLabels, Candidates(lists, cuts, isMember, |rows|), all, k);
  }

  /** The documents an uncut query reaches in unpruned lists are those that score above zero. */
  lemma ReachedArePositive(lists: seq<seq<Cluster>>, rows: seq<Row>, params: Parameters, query: Row, cut: int, cuts: seq<nat>,
                           isMember: nat -> bool)
    requires ClusteredWhole(lists, rows, params) && Corpus(rows, |lists|)
    requires cut >= |query| && IsCutOf(cuts, query, cut)
    requires Positive(query) && forall d :: 0 <= d < |rows| ==> Positive(rows[d])
    ensures var all := InvertedIndex.DocScores(rows, query);
            Candidates(lists, cuts, isMember, |rows|) == PositiveOf(InvertedIndex.Members(all, isMember), all)
  {
    hide ClusteredWhole, Corpus, IsCutOf, Reached, Dot, SharesTerm;
    var all := InvertedIndex.DocScores(rows, query);
    forall d: nat | d < |rows|
      ensures Reached(lists, cuts, d) <==> all[d] > 0.0
    {
      ReachedIffShared(lists, rows, params, query, cut, cuts, d);
      SharesPositive(rows[d], query);
    }
  }

  lemma SharesPositive(row: Row, query: Row)
    requires Positive(row) && Positive(query)
    ensures SharesTerm(row, query) <==> Dot(row, query) > 0.0
  {
    DotPositiveIffShared(row, query);
  }

  // ---------------------------------------------------------------- building

  /** The build parameters as given; -1 asks for a default. */
  datatype ClusterParameters = ClusterParameters(lam: int, beta: int, alpha: real)

  const SEED_RANGE: nat := 0x1_0000_0000

  /** Defaults resolved once, against the whole corpus. */
  function Resolve(given: ClusterParameters, nVectors: nat): Parameters
    requires AsSizeable(given, nVectors)
  {
    var lam := CalculateLambda(given.lam, nVectors);
    Parameters(AsSize(lam), AsSize(CalculateBeta(given.beta, lam)), given.alpha)
  }

  predicate AsSizeable(given: ClusterParameters, nVectors: nat) {
    var lam := CalculateLambda(given.lam, nVectors);
    lam + SIZE_T_RANGE >= 0 && CalculateBeta(given.beta, lam) + SIZE_T_RANGE >= 0
  }

  /** Whatever 32-bit parameters are given, what they resolve to has a 64-bit pattern. */
  lemma IntsAreSizeable(given: ClusterParameters, nVectors: nat)
    requires -0x8000_0000 <= given.lam && -0x8000_0000 <= given.beta
    ensures AsSizeable(given, nVectors)
  {
  }

  /** The most postings a list keeps: as given, or by default 160 and more only for large corpora. */
  ghost predicate KeepsAtMost(lam: nat, given: int, nVectors: nat) {
    && (given >= 0 ==> lam == given)
    && (given < -1 ==> lam == given + 0x1_0000_0000_0000_0000)
    && (given == -1 && nVectors <= 320000 ==> lam == 160)
    && (given == -1 && nVectors > 320000 ==> 0.0005 * nVectors as real - 1.0 < lam as real <= 0.0005 * nVectors as real)
  }

  /** The clusters a list is cut into: as given, or by default a tenth of what a list keeps, rounded down. */
  ghost predicate CutsInto(beta: nat, given: int, lam: nat, givenLam: int) {
    && (given >= 0 ==> beta == given)
    && (given < -1 ==> beta == given + 0x1_0000_0000_0000_0000)
    && (given == -1 && givenLam >= -1 ==> 10 * beta <= lam < 10 * (beta + 1))
  }

  /**
   * A list is clustered as its parameters ask: that many of its postings kept, those of the largest
   * values, and cut into that many clusters, each with the summary the given alpha leaves of it.
   */
  ghost predicate AsGiven(clusters: seq<Cluster>, rows: seq<Row>, list: seq<Posting>, given: ClusterParameters) {
    exists params: Parameters ::
      && KeepsAtMost(params.lam, given.lam, |rows|) && CutsInto(params.beta, given.beta, params.lam, given.lam)
      && params.alpha == given.alpha && IsClusteredList(clusters, rows, list, params)
  }

  lemma ResolvedAsGiven(clusters: seq<Cluster>, rows: seq<Row>, list: seq<Posting>, given: ClusterParameters)
    requires AsSizeable(given, |rows|) && IsClusteredList(clusters, rows, list, Resolve(given, |rows|))
    ensures AsGiven(clusters, rows, list, given)
  {
    hide IsClusteredList;
    var params := Resolve(given, |rows|);
    assert KeepsAtMost(params.lam, given.lam, |rows|) && CutsInto(params.beta, given.beta, params.lam, given.lam);
  }

  /**
   * What that comes to in numbers: an explicit lambda above zero bounds the documents of the clusters,
   * an explicit beta above zero their number.
   */
  lemma SizesAsGiven(clusters: seq<Cluster>, rows: seq<Row>, list: seq<Posting>, given: ClusterParameters)
    requires AsGiven(clusters, rows, list, given)
    ensures var kept := |Clusters.Flatten(GroupsOf(clusters))|;
            && (given.lam > 0 ==> kept == Min(given.lam, |list|))
            && (given.lam == 0 ==> kept == |list|)
            && (given.lam == -1 && |rows| <= 320000 ==> kept == Min(160, |list|))
            && (given.beta > 0 ==> |clusters| == Min(given.beta, kept))
            && (given.lam == -1 && given.beta == -1 && |rows| <= 320000 ==> |clusters| == Min(16, kept))
    ensures Summarized(clusters, rows, given.alpha)
  {
    hide IsClusteredList, IsPruned, IsClustering, Summarized, Clusters.Flatten;
    var params: Parameters :|
      && KeepsAtMost(params.lam, given.lam, |rows|) && CutsInto(params.beta, given.beta, params.lam, given.lam)
      && params.alpha == given.alpha && IsClusteredList(clusters, rows, list, params);
    KeptSizes(clusters, rows, list, params);
  }

  lemma KeptSizes(clusters: seq<Cluster>, rows: seq<Row>, list: seq<Posting>, params: Parameters)
    requires IsClusteredList(clusters, rows, list, params)
    ensures var kept := |Clusters.Flatten(GroupsOf(clusters))|;
            && kept == (if params.lam == 0 then |list| else Min(params.lam, |list|))
            && IsClusterCount(|clusters|, kept, params.beta)
    ensures Summarized(clusters, rows, params.alpha)
  {
    hide IsClusterCount, Summarized;
    var kept: seq<nat> :| IsPruned(kept, list, params.lam) && IsClustering(GroupsOf(clusters), rows, kept)
                          && IsClusterCount(|clusters|, |kept|, params.beta);
    Sorting.SameSize(Clusters.Flatten(GroupsOf(clusters)), kept);
  }

  /**
   * Every term's list holds summarized clusters of its postings; they partition what pruning keeps
   * when no document of the corpus repeats the term.
   */
  ghost predicate ListsBuilt(lists: seq<Clusters.InvertedListClusters>, rows: seq<Row>, params: Parameters)
    reads lists
  {
    forall t :: 0 <= t < |lists| ==> lists[t].Valid() && ListBuilt(ClustersOf(lists[t]), rows, PostingsOf(rows, t), params)
  }

  ghost predicate ListBuilt(clusters: seq<Cluster>, rows: seq<Row>, list: seq<Posting>, params: Parameters) {
    Summarized(clusters, rows, params.alpha) && (StrictlyAscending(list) ==> IsClusteredList(clusters, rows, list, params))
  }

  /** Every list is clustered as the given parameters ask, where no document repeats its term. */
  ghost predicate BuiltAsGiven(lists: seq<Clusters.InvertedListClusters>, rows: seq<Row>, given: ClusterParameters)
    reads lists
  {
    forall t :: 0 <= t < |lists| && StrictlyAscending(PostingsOf(rows, t)) ==>
      lists[t].Valid() && AsGiven(ClustersOf(lists[t]), rows, PostingsOf(rows, t), given)
  }

  lemma AllAsGiven(lists: seq<Clusters.InvertedListClusters>, rows: seq<Row>, given: ClusterParameters)
    requires AsSizeable(given, |rows|) && ListsBuilt(lists, rows, Resolve(given, |rows|))
    ensures BuiltAsGiven(lists, rows, given)
  {
    hide PostingsOf, StrictlyAscending, Resolve, AsGiven, Summarized, IsClusteredList;
    forall t | 0 <= t < |lists| && StrictlyAscending(PostingsOf(rows, t))
      ensures AsGiven(ClustersOf(lists[t]), rows, PostingsOf(rows, t), given)
    {
      assert ListBuilt(ClustersOf(lists[t]), rows, PostingsOf(rows, t), Resolve(given, |rows|));
      ResolvedAsGiven(ClustersOf(lists[t]), rows, PostingsOf(rows, t), given);
    }
  }

  /** Clustering as the build does it: a function of a list's postings and its global term. */
  ghost function ClusteringOf(rows: seq<Row>, params: Parameters, baseSeed: nat, generator: nat -> nat -> nat): Clustering<seq<Cluster>> {
    (list: seq<Posting>, term: nat) =>
      if PostingsBelow(list, |rows|) then ClustersFor(rows, list, params, generator((baseSeed + term) % 0x1_0000_0000)) else []
  }

  /** The first lists hold exactly what that function makes of the corpus. */
  ghost predicate ListsExact(lists: seq<Clusters.InvertedListClusters>, rows: seq<Row>, params: Parameters, baseSeed: nat,
                             generator: nat -> nat -> nat)
    reads lists
  {
    && ListsBuilt(lists, rows, params)
    && ListsOf(lists) == Clustered(rows, 0, |lists|, ClusteringOf(rows, params, baseSeed, generator))
  }

  /** Clusters a window's lists, each seeded by its global term. */
  method ClusterWindowLists(csr: Csr, dim: nat, postings: seq<seq<Posting>>, window: Window, params: Parameters,
                            baseSeed: nat, generator: nat -> nat -> nat, before: seq<Clusters.InvertedListClusters>)
    returns (lists: seq<Clusters.InvertedListClusters>)
    requires csr.Valid() && forall d :: 0 <= d < csr.Count() ==> TermsBelow(csr.Row(d), dim)
    requires |before| == window.begin <= window.end && |postings| == window.end - window.begin
    requires forall l :: 0 <= l < |postings| ==> postings[l] == PostingsOf(csr.Rows(), window.begin + l)
    requires ListsExact(before, csr.Rows(), params, baseSeed, generator)
    ensures |lists| == window.end && ListsExact(lists, csr.Rows(), params, baseSeed, generator)
  {
    hide PostingsOf, ListsExact, TermsBelow, IsClusteredList, Summarized, StrictlyAscending, ClustersFor, Csr.Valid;
    ghost var rows := csr.Rows();
    lists := before;
    for local := 0 to |postings|
      invariant |lists| == window.begin + local && ListsExact(lists, rows, params, baseSeed, generator)
    {
      var term: nat := window.begin + local;
      PostingsInRange(rows, term);
      var list := ClusterList(csr, dim, postings[local], params, generator((baseSeed + term) % SEED_RANGE));
      OneMoreList(lists, list, rows, params, baseSeed, generator);
      lists := lists + [list];
    }
  }

  lemma OneMoreList(lists: seq<Clusters.InvertedListClusters>, list: Clusters.InvertedListClusters, rows: seq<Row>,
                    params: Parameters, baseSeed: nat, generator: nat -> nat -> nat)
    requires ListsExact(lists, rows, params, baseSeed, generator)
    requires list.Valid() && PostingsBelow(PostingsOf(rows, |lists|), |rows|)
    requires ListBuilt(ClustersOf(list), rows, PostingsOf(rows, |lists|), params)
    requires ClustersOf(list) == ClustersFor(rows, PostingsOf(rows, |lists|), params, generator((baseSeed + |lists|) % SEED_RANGE))
    ensures ListsExact(lists + [list], rows, params, baseSeed, generator)
  {
    hide PostingsOf, ListBuilt, ClustersOf, ClusteringOf, Clustered, ListsOf, ListsBuilt, ClustersFor, PostingsBelow,
      Clusters.InvertedListClusters.Valid;
    var cluster := ClusteringOf(rows, params, baseSeed, generator);
    OneMoreBuilt(lists, list, rows, params);
    OneMoreView(lists, list);
    ClusteredAt(rows, PostingsOf(rows, |lists|), |lists|, params, baseSeed, generator);
    ClusteredNext(rows, |lists|, cluster);
    assert ListsOf(lists + [list]) == Clustered(rows, 0, |lists + [list]|, cluster);
  }

  lemma OneMoreBuilt(lists: seq<Clusters.InvertedListClusters>, list: Clusters.InvertedListClusters, rows: seq<Row>, params: Parameters)
    requires ListsBuilt(lists, rows, params)
    requires list.Valid() && ListBuilt(ClustersOf(list), rows, PostingsOf(rows, |lists|), params)
    ensures ListsBuilt(lists + [list], rows, params)
    ensures forall t :: 0 <= t < |lists| ==> lists[t].Valid()
    ensures forall t :: 0 <= t < |lists + [list]| ==> (lists + [list])[t].Valid()
  {
    hide PostingsOf, ListBuilt, ClustersOf, Clusters.InvertedListClusters.Valid;
    var more := lists + [list];
    forall t | 0 <= t < |more|
      ensures more[t].Valid() && ListBuilt(ClustersOf(more[t]), rows, PostingsOf(rows, t), params)
    {
      assert t < |lists| ==> more[t] == lists[t];
    }
  }

  lemma ClusteredAt(rows: seq<Row>, list: seq<Posting>, term: nat, params: Parameters, baseSeed: nat, generator: nat -> nat -> nat)
    requires PostingsBelow(list, |rows|)
    ensures ClusteringOf(rows, params, baseSeed, generator)(list, term)
            == ClustersFor(rows, list, params, generator((baseSeed + term) % SEED_RANGE))
  {
    hide ClustersFor, PostingsBelow;
  }

  lemma ClusteredNext<T>(rows: seq<Row>, n: nat, cluster: Clustering<T>)
    ensures Clustered(rows, 0, n + 1, cluster) == Clustered(rows, 0, n, cluster) + [cluster(PostingsOf(rows, n), n)]
  {
    hide PostingsOf;
  }

  lemma OneMoreView(lists: seq<Clusters.InvertedListClusters>, list: Clusters.InvertedListClusters)
    requires (forall t :: 0 <= t < |lists| ==> lists[t].Valid()) && list.Valid()
    ensures forall t :: 0 <= t < |lists + [list]| ==> (lists + [list])[t].Valid()
    ensures ListsOf(lists + [list]) == ListsOf(lists) + [ClustersOf(list)]
  {
    hide ClustersOf, Clusters.InvertedListClusters.Valid;
    var more := lists + [list];
    assert forall t :: 0 <= t < |lists| ==> more[t] == lists[t];
  }

  lemma NoLists(none: seq<Clusters.InvertedListClusters>, rows: seq<Row>, params: Parameters, baseSeed: nat, generator: nat -> nat -> nat)
    requires none == []
    ensures ListsExact(none, rows, params, baseSeed, generator)
  {
  }

  /** The clustered lists of the whole term space, built window by window; how many windows there were leaves no trace. */
  method BuildLists(csr: Csr, dim: nat, params: Parameters, batchSize: nat, baseSeed: nat, generator: nat -> nat -> nat)
    returns (result: Result<seq<Clusters.InvertedListClusters>>)
    requires csr.Valid() && csr.Count() > 0 && batchSize >= 1
    ensures result.Ok? <==> InDimension(csr, dim)
    ensures result.Ok? ==> |result.value| == dim && ListsExact(result.value, csr.Rows(), params, baseSeed, generator)
  {
    hide PostingsOf, Tiles, Balanced, SharesEvenly, CutsGreedily, ListsExact, TermsBelow;
    var counts := CountPostingsPerTerm(csr, dim);
    if counts.Failed? {
      return Failed(counts.reason);
    }
    RowsInDimension(csr, dim);
    var windows := MakeWindows(counts.value, params.lam, Min(batchSize, dim));
    var lists: seq<Clusters.InvertedListClusters> := [];
    NoLists(lists, csr.Rows(), params, baseSeed, generator);
    for w := 0 to |windows|
      invariant |lists| == (if w == 0 then 0 else windows[w - 1].end)
      invariant ListsExact(lists, csr.Rows(), params, baseSeed, generator)
    {
      TilesChain(windows, dim, w);
      var postings := WindowPostings(csr, counts.value, windows[w]);
      if postings.Failed? {
        return Failed("corpus changed during the build");
      }
      lists := ClusterWindowLists(csr, dim, postings.value, windows[w], params, baseSeed, generator, lists);
    }
    TilesEnd(windows, dim);
    return Ok(lists);
  }

  /** Without documents every list stays as it was made. */
  method EmptyLists(dim: nat, params: Parameters, ghost baseSeed: nat, ghost generator: nat -> nat -> nat)
    returns (lists: seq<Clusters.InvertedListClusters>)
    ensures |lists| == dim && ListsExact(lists, [], params, baseSeed, generator)
  {
    hide ListsExact;
    lists := [];
    NoLists(lists, [], params, baseSeed, generator);
    for t := 0 to dim
      invariant |lists| == t && ListsExact(lists, [], params, baseSeed, generator)
    {
      var list := new Clusters.InvertedListClusters([]);
      EmptyList(list, t, params, generator((baseSeed + t) % SEED_RANGE));
      OneMoreList(lists, list, [], params, baseSeed, generator);
      lists := lists + [list];
    }
  }

  lemma EmptyList(list: Clusters.InvertedListClusters, t: nat, params: Parameters, draws: nat -> nat)
    requires list.Valid() && list.nClusters == 0
    ensures PostingsBelow(PostingsOf([], t), 0) && ListBuilt(ClustersOf(list), [], PostingsOf([], t), params)
    ensures ClustersOf(list) == ClustersFor([], PostingsOf([], t), params, draws)
  {
    assert PostingsOf([], t) == [] && Pruned([], params.lam) == [];
    NothingClustered([]);
    assert GroupsOf(ClustersOf(list)) == [];
    assert IsPruned([], [], params.lam);
  }

  lemma RowsInDimension(csr: Csr, dim: nat)
    requires csr.Valid() && InDimension(csr, dim)
    ensures forall d :: 0 <= d < csr.Count() ==> TermsBelow(csr.Row(d), dim)
  {
    forall d | 0 <= d < csr.Count()
      ensures TermsBelow(csr.Row(d), dim)
    {
      EntriesBelow(csr, dim, d);
    }
  }

  lemma TilesChain(windows: seq<Window>, upTo: nat, w: nat)
    requires Tiles(windows, upTo) && w < |windows|
    ensures windows[w].begin == (if w == 0 then 0 else windows[w - 1].end)
    ensures windows[w].begin < windows[w].end <= upTo
  {
    TilesInside(windows, upTo, w);
  }

  lemma TilesEnd(windows: seq<Window>, upTo: nat)
    requires Tiles(windows, upTo)
    ensures upTo == if windows == [] then 0 else windows[|windows| - 1].end
  {
  }

  // ---------------------------------------------------------------- the index

  /** No selector, one that enumerates its ids, or any other membership test. */
  datatype Selector = Everything | Listed(ids: seq<int>) | Filter(isMember: nat -> bool)

  /** The documents a selector lets through. */
  ghost predicate Selects(selector: Selector, d: nat) {
    match selector
    case Everything => true
    case Listed(ids) => d in ids
    case Filter(isMember) => isMember(d)
  }

  function IsMember(selector: Selector): (isMember: nat -> bool)
    ensures forall d :: isMember(d) <==> Selects(selector, d)
  {
    match selector
    case Everything => (d: nat) => true
    case Listed(ids) => (d: nat) => d in ids
    case Filter(isMember) => isMember
  }

  /** A selector naming at most k ids is scored directly; the comparison is unsigned. */
  predicate ShouldRunExactMatch(selector: Selector, k: int) {
    selector.Listed? && (k < 0 || |selector.ids| <= k)
  }

  datatype SearchParameters = SearchParameters(k: int, cut: int, heapFactor: real, selector: Selector)

  /** A query that cannot fail: a positive k where a heap is made, and a cut that keeps the query or a positive part of it. */
  predicate Answerable(query: Row, p: SearchParameters, nDocs: nat) {
    if ShouldRunExactMatch(p.selector, p.k) then p.k > 0
    else (p.cut > 0 || p.cut >= |query|) && (p.k > 0 || nDocs == 0)
  }

  /** One query's reply, by whichever path served it. */
  ghost predicate IsIndexReply(reply: (seq<real>, seq<int>), rows: seq<Row>, lists: seq<seq<Cluster>>, query: Row, p: SearchParameters)
  {
    var all := InvertedIndex.DocScores(rows, LastWeights(query));
    if rows == [] && !ShouldRunExactMatch(p.selector, p.k) then reply == ([], [])
    else if p.k <= 0 then false
    else if ShouldRunExactMatch(p.selector, p.k) then ExactMatcher.IsExactReply(reply.0, reply.1, p.selector.ids, all, p.k)
    else exists cuts: seq<nat> :: IsCutOf(cuts, query, p.cut)
           && IsSeismicReply(reply.0, reply.1, lists, cuts, query, p.heapFactor, IsMember(p.selector), p.k, all)
  }

  method ZeroBuffer(n: nat) returns (dense: array<real>)
    ensures fresh(dense) && dense.Length == n && AllZero(dense[..])
  {
    dense := new real[n](_ => 0.0);
  }

  /** A built index can be searched. */
  lemma BuiltParts(lists: seq<Clusters.InvertedListClusters>, rows: seq<Row>, params: Parameters)
    requires ListsBuilt(lists, rows, params)
    ensures ValidLists(lists, |rows|)
  {
  }

  class SeismicIndex {
    const dimension: nat
    const parameters: ClusterParameters
    var csr: Csr
    var lists: seq<Clusters.InvertedListClusters>

    constructor (dimension: nat, parameters: ClusterParameters, csr: Csr)
      ensures this.dimension == dimension && this.parameters == parameters && this.csr == csr && lists == []
    {
      this.dimension, this.parameters, this.csr := dimension, parameters, csr;
      lists := [];
    }

    /** The corpus fits the dimension, and the lists are its clusters. */
    ghost predicate Built()
      reads this, lists
    {
      && csr.Valid() && AsSizeable(parameters, csr.Count())
      && (forall d :: 0 <= d < csr.Count() ==> TermsBelow(csr.Row(d), dimension)) && |lists| == dimension
      && ListsBuilt(lists, csr.Rows(), Resolve(parameters, csr.Count()))
    }

    /**
     * Builds every term's clusters. A term outside the dimension, or nothing to spill, leaves the
     * index as it was. The lists are one function of corpus, parameters and seed: neither the batch
     * size nor the spill shows in them.
     */
    method Build(batchSize: nat, batchPath: bool, baseSeed: nat, generator: nat -> nat -> nat) returns (ok: bool)
      requires csr.Valid() && AsSizeable(parameters, csr.Count())
      modifies this`lists
      ensures ok <==> if csr.Count() == 0 then EffectiveBatchSize(batchSize, batchPath) <= 1 else InDimension(csr, dimension)
      ensures ok ==> Built()
      ensures ok ==> ListsOf(lists) == Clustered(csr.Rows(), 0, dimension,
                                                 ClusteringOf(csr.Rows(), Resolve(parameters, csr.Count()), baseSeed, generator))
      ensures ok ==> BuiltAsGiven(lists, csr.Rows(), parameters)
      ensures !ok ==> lists == old(lists)
    {
      hide PostingsOf, IsClusteredList, TermsBelow, Clustered, ClusteringOf, BuiltAsGiven;
      var params, batches := Resolve(parameters, csr.Count()), EffectiveBatchSize(batchSize, batchPath);
      if csr.Count() == 0 {
        if batches > 1 {
          return false;
        }
        lists := EmptyLists(dimension, params, baseSeed, generator);
        assert csr.Rows() == [];
        AllAsGiven(lists, csr.Rows(), parameters);
        return true;
      }
      var result := BuildLists(csr, dimension, params, batches, baseSeed, generator);
      if result.Failed? {
        return false;
      }
      RowsInDimension(csr, dimension);
      lists := result.value;
      AllAsGiven(lists, csr.Rows(), parameters);
      return true;
    }

    /** A batch of queries on one thread, all sharing one dense buffer. */
    method Search(queries: seq<Row>, p: SearchParameters) returns (result: Result<seq<(seq<real>, seq<int>)>>)
      requires Built()
      requires forall q :: 0 <= q < |queries| ==> TermsBelow(queries[q], dimension)
      ensures result.Ok? <==> forall q :: 0 <= q < |queries| ==> Answerable(queries[q], p, csr.Count())
      ensures result.Ok? ==> |result.value| == |queries|
      ensures result.Ok? ==> forall q :: 0 <= q < |queries| ==>
                IsIndexReply(result.value[q], csr.Rows(), ListsOf(lists), queries[q], p)
    {
      hide IsIndexReply, IsClusteredList, Corpus, TermsBelow, AsSizeable, AllZero, Csr.Valid;
      var dense := ZeroBuffer(dimension);
      var replies: seq<(seq<real>, seq<int>)> := [];
      ghost var rows, views := csr.Rows(), ListsOf(lists);
      for q := 0 to |queries|
        invariant AllZero(dense[..]) && |replies| == q
        invariant forall j :: 0 <= j < q ==> Answerable(queries[j], p, csr.Count())
        invariant forall j :: 0 <= j < q ==> IsIndexReply(replies[j], rows, views, queries[j], p)
      {
        var reply := SearchOne(queries[q], p, dense, rows, views);
        if reply.Failed? {
          return Failed(reply.reason);
        }
        replies := replies + [reply.value];
      }
      return Ok(replies);
    }

    /** One query of the batch, by the exact path or through the clusters. */
    method SearchOne(query: Row, p: SearchParameters, dense: array<real>, ghost rows: seq<Row>, ghost views: seq<seq<Cluster>>)
      returns (reply: Result<(seq<real>, seq<int>)>)
      requires Built() && rows == csr.Rows() && views == ListsOf(lists)
      requires TermsBelow(query, dimension)
      requires dense.Length == dimension && AllZero(dense[..])
      modifies dense
      ensures reply.Ok? ==> AllZero(dense[..])
      ensures reply.Ok? <==> Answerable(query, p, csr.Count())
      ensures reply.Ok? ==> IsIndexReply(reply.value, rows, views, query, p)
    {
      hide ListsBuilt, Corpus, TermsBelow, AsSizeable, AllZero, IsSeismicReply, IsCutOf, Scattered;
      BuiltParts(lists, rows, Resolve(parameters, csr.Count()));
      if ShouldRunExactMatch(p.selector, p.k) {
        if p.k <= 0 {
          return Failed("value must be positive");
        }
        var queryDense := ZeroBuffer(dimension);
        Scatter(queryDense, query);
        var scores, labels := ExactMatcher.SingleQuery(csr, p.selector.ids, queryDense, p.k, LastWeights(query));
        return Ok((scores, labels));
      }
      var cuts := TopKTokens(query, p.cut);
      if cuts.Failed? {
        return Failed(cuts.reason);
      }
      reply := SingleQuery(csr, lists, dense, query, cuts.value, p.k, p.heapFactor, IsMember(p.selector));
    }
  }
}
