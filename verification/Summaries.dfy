/** Cluster summaries: the epoch-stamped max-pool and the alpha-mass cut. */
module Summaries {
  import opened SparseDot
  import Sorting

  // ---------------------------------------------------------------- what a pool is

  /** The entries of a cluster's documents, one row after the other. */
  function Gather(rows: seq<Row>, docs: seq<nat>): Row
    requires forall i :: 0 <= i < |docs| ==> docs[i] < |rows|
  {
    if docs == [] then []
    else Gather(rows, docs[..|docs| - 1]) + rows[docs[|docs| - 1]]
  }

  /** The largest value stored at t, never below zero. */
  function MaxAt(entries: Row, t: nat): real {
    if entries == [] then 0.0
    else
      var init, e := entries[..|entries| - 1], entries[|entries| - 1];
      var m := MaxAt(init, t);
      if e.term == t && e.value > m then e.value else m
  }

  /** The total of a list of entries. */
  function Mass(pool: Row): real {
    if pool == [] then 0.0 else Mass(pool[..|pool| - 1]) + pool[|pool| - 1].value
  }

  /** One entry per term that occurs, holding that term's maximum. */
  ghost predicate IsPool(pool: Row, entries: Row) {
    && DistinctTerms(pool)
    && (forall i :: 0 <= i < |pool| ==> Carries(entries, pool[i].term) && pool[i].value == MaxAt(entries, pool[i].term))
    && (forall t: nat :: Carries(entries, t) ==> Carries(pool, t))
  }

  lemma {:induction false} MaxAtNonNegative(entries: Row, t: nat)
    ensures MaxAt(entries, t) >= 0.0
  {
    if entries != [] {
      MaxAtNonNegative(entries[..|entries| - 1], t);
    }
  }

  lemma {:induction false} MaxAtBounds(entries: Row, i: nat)
    requires i < |entries|
    ensures entries[i].value <= MaxAt(entries, entries[i].term)
  {
    if i < |entries| - 1 {
      MaxAtBounds(entries[..|entries| - 1], i);
    }
  }

  lemma MaxAtStep(entries: Row, e: Entry, t: nat)
    ensures MaxAt(entries + [e], t) ==
            if e.term == t && e.value > MaxAt(entries, t) then e.value else MaxAt(entries, t)
  {
    assert (entries + [e])[..|entries|] == entries;
  }

  lemma {:induction false} MaxAtAbsent(entries: Row, t: nat)
    requires !Carries(entries, t)
    ensures MaxAt(entries, t) == 0.0
  {
    if entries != [] {
      var init := entries[..|entries| - 1];
      assert forall i :: 0 <= i < |init| ==> init[i] == entries[i];
      MaxAtAbsent(init, t);
    }
  }

  lemma CarriesStep(entries: Row, e: Entry, t: nat)
    ensures Carries(entries + [e], t) <==> Carries(entries, t) || e.term == t
  {
    if Carries(entries, t) {
      var i :| 0 <= i < |entries| && entries[i].term == t;
      assert (entries + [e])[i].term == t;
    }
    assert (entries + [e])[|entries|] == e;
  }

  lemma {:induction false} MassAppend(a: Row, b: Row)
    ensures Mass(a + b) == Mass(a) + Mass(b)
  {
    if b == [] {
      assert a + b == a;
    } else {
      assert (a + b)[..|a + b| - 1] == a + b[..|b| - 1];
      MassAppend(a, b[..|b| - 1]);
    }
  }

  lemma MassOne(e: Entry)
    ensures Mass([e]) == e.value
  {
    assert [e][..0] == [];
  }

  lemma MassRemove(b: Row, i: nat)
    requires i < |b|
    ensures Mass(b) == Mass(b[..i] + b[i + 1..]) + b[i].value
  {
    hide Mass;
    var before, after := b[..i], b[i + 1..];
    assert b == before + ([b[i]] + after);
    MassAppend(before, [b[i]] + after);
    MassAppend([b[i]], after);
    MassAppend(before, after);
    MassOne(b[i]);
  }

  lemma {:induction false} MassPermutes(a: Row, b: Row)
    requires multiset(a) == multiset(b)
    ensures Mass(a) == Mass(b)
    decreases |a|
  {
    if a == [] {
      assert |multiset(b)| == 0;
    } else {
      var i := Sorting.Rematch(a, b);
      MassPermutes(a[..|a| - 1], b[..i] + b[i + 1..]);
      MassRemove(b, i);
    }
  }

  lemma {:induction false} MassNonNegative(pool: Row)
    requires NonNegative(pool)
    ensures Mass(pool) >= 0.0
    ensures Mass(pool) == 0.0 ==> forall i :: 0 <= i < |pool| ==> pool[i].value == 0.0
  {
    if pool != [] {
      MassNonNegative(pool[..|pool| - 1]);
    }
  }

  // ---------------------------------------------------------------- the pooling loop

  /** The touched terms with their current maxima, in order of first touch. */
  function PoolOf(touched: seq<nat>, entries: Row): (pool: Row)
    ensures |pool| == |touched|
    ensures forall i :: 0 <= i < |pool| ==> pool[i] == Entry(touched[i], MaxAt(entries, touched[i]))
  {
    seq(|touched|, i requires 0 <= i < |touched| => Entry(touched[i], MaxAt(entries, touched[i])))
  }

  /** The terms that occur, each where it occurs first. */
  function FirstTouches(entries: Row): (terms: seq<nat>) {
    if entries == [] then []
    else
      var before, t := FirstTouches(entries[..|entries| - 1]), entries[|entries| - 1].term;
      if t in before then before else before + [t]
  }

  lemma TouchStep(entries: Row, e: Entry)
    ensures FirstTouches(entries + [e])
            == if e.term in FirstTouches(entries) then FirstTouches(entries) else FirstTouches(entries) + [e.term]
  {
    assert (entries + [e])[..|entries|] == entries;
  }

  /** The max-pool of some entries, in order of first touch. */
  function PoolFor(entries: Row): Row {
    PoolOf(FirstTouches(entries), entries)
  }

  /** Live slots are those stamped with the current epoch, and hold their term's maximum. */
  ghost predicate Stamped(acc: seq<real>, epoch: seq<nat>, cur: nat, entries: Row) {
    && |acc| == |epoch|
    && (forall t :: 0 <= t < |epoch| ==> epoch[t] <= cur)
    && (forall t :: 0 <= t < |epoch| ==> (epoch[t] == cur <==> Carries(entries, t)))
    && (forall t :: 0 <= t < |epoch| && epoch[t] == cur ==> acc[t] == MaxAt(entries, t))
  }

  /** `touched` lists the live slots, each once. */
  ghost predicate Listed(touched: seq<nat>, epoch: seq<nat>, cur: nat) {
    && (forall i, j :: 0 <= i < j < |touched| ==> touched[i] != touched[j])
    && (forall i :: 0 <= i < |touched| ==> touched[i] < |epoch| && epoch[touched[i]] == cur)
    && (forall t :: 0 <= t < |epoch| && epoch[t] == cur ==> t in touched)
  }

  /** The accumulator state after some entries of the current cluster. */
  ghost predicate Pooling(acc: seq<real>, epoch: seq<nat>, cur: nat, touched: seq<nat>, sum: real, entries: Row) {
    && Stamped(acc, epoch, cur, entries)
    && Listed(touched, epoch, cur) && touched == FirstTouches(entries)
    && sum == Mass(PoolOf(touched, entries))
  }

  lemma MassUpdate(b: Row, i: nat, x: Entry)
    requires i < |b|
    ensures Mass(b[i := x]) == Mass(b) - b[i].value + x.value
  {
    MassRemove(b, i);
    MassRemove(b[i := x], i);
    assert b[i := x][..i] + b[i := x][i + 1..] == b[..i] + b[i + 1..];
  }

  lemma MassSnoc(pool: Row, x: Entry)
    ensures Mass(pool + [x]) == Mass(pool) + x.value
  {
    assert (pool + [x])[..|pool|] == pool;
  }

  lemma AppendEffect(entries: Row, e: Entry)
    ensures forall t: nat :: Carries(entries + [e], t) <==> Carries(entries, t) || e.term == t
    ensures forall t: nat :: MaxAt(entries + [e], t) ==
                             if e.term == t && e.value > MaxAt(entries, t) then e.value else MaxAt(entries, t)
  {
    forall t: nat
      ensures Carries(entries + [e], t) <==> Carries(entries, t) || e.term == t
      ensures MaxAt(entries + [e], t) == if e.term == t && e.value > MaxAt(entries, t) then e.value else MaxAt(entries, t)
    {
      CarriesStep(entries, e, t);
      MaxAtStep(entries, e, t);
    }
  }

  lemma FirstTouchListed(touched: seq<nat>, epoch: seq<nat>, cur: nat, t: nat)
    requires Listed(touched, epoch, cur) && t < |epoch| && epoch[t] != cur
    ensures Listed(touched + [t], epoch[t := cur], cur)
  {
  }

  lemma FirstTouchPool(touched: seq<nat>, epoch: seq<nat>, cur: nat, entries: Row, e: Entry, value: real)
    requires Listed(touched, epoch, cur) && e.term < |epoch| && epoch[e.term] != cur
    requires value == (if e.value > 0.0 then e.value else 0.0) && !Carries(entries, e.term)
    ensures Mass(PoolOf(touched + [e.term], entries + [e])) == Mass(PoolOf(touched, entries)) + value
  {
    AppendEffect(entries, e);
    MaxAtAbsent(entries, e.term);
    hide MaxAt, Carries, Mass;
    assert PoolOf(touched + [e.term], entries + [e]) == PoolOf(touched, entries) + [Entry(e.term, value)];
    MassSnoc(PoolOf(touched, entries), Entry(e.term, value));
  }

  lemma FirstTouchStamped(acc: seq<real>, epoch: seq<nat>, cur: nat, entries: Row, e: Entry, value: real)
    requires Stamped(acc, epoch, cur, entries) && e.term < |epoch| && epoch[e.term] != cur
    requires value == (if e.value > 0.0 then e.value else 0.0)
    ensures Stamped(acc[e.term := value], epoch[e.term := cur], cur, entries + [e])
  {
    AppendEffect(entries, e);
    MaxAtAbsent(entries, e.term);
    hide MaxAt, Carries;
  }

  /** First touch of a term in this cluster. */
  lemma PoolFirstTouch(acc: seq<real>, epoch: seq<nat>, cur: nat, touched: seq<nat>, sum: real, entries: Row, e: Entry)
    requires Pooling(acc, epoch, cur, touched, sum, entries)
    requires e.term < |epoch| && epoch[e.term] != cur
    ensures var value := if e.value > 0.0 then e.value else 0.0;
            Pooling(acc[e.term := value], epoch[e.term := cur], cur, touched + [e.term], sum + value, entries + [e])
  {
    var value := if e.value > 0.0 then e.value else 0.0;
    TouchStep(entries, e);
    FirstTouchListed(touched, epoch, cur, e.term);
    FirstTouchPool(touched, epoch, cur, entries, e, value);
    FirstTouchStamped(acc, epoch, cur, entries, e, value);
  }

  lemma RaisePool(touched: seq<nat>, epoch: seq<nat>, cur: nat, entries: Row, e: Entry)
    requires Listed(touched, epoch, cur) && e.term < |epoch| && epoch[e.term] == cur && e.value > MaxAt(entries, e.term)
    ensures Mass(PoolOf(touched, entries + [e])) == Mass(PoolOf(touched, entries)) + (e.value - MaxAt(entries, e.term))
  {
    hide Mass, MaxAt;
    var i :| 0 <= i < |touched| && touched[i] == e.term;
    AppendEffect(entries, e);
    assert PoolOf(touched, entries + [e]) == PoolOf(touched, entries)[i := e];
    MassUpdate(PoolOf(touched, entries), i, e);
  }

  lemma RaiseStamped(acc: seq<real>, epoch: seq<nat>, cur: nat, entries: Row, e: Entry)
    requires Stamped(acc, epoch, cur, entries) && e.term < |epoch| && epoch[e.term] == cur && e.value > acc[e.term]
    ensures Stamped(acc[e.term := e.value], epoch, cur, entries + [e])
  {
    AppendEffect(entries, e);
    hide MaxAt, Carries;
  }

  /** A later, larger value of a term already touched. */
  lemma PoolRaise(acc: seq<real>, epoch: seq<nat>, cur: nat, touched: seq<nat>, sum: real, entries: Row, e: Entry)
    requires Pooling(acc, epoch, cur, touched, sum, entries)
    requires e.term < |epoch| && epoch[e.term] == cur && e.value > acc[e.term]
    ensures Pooling(acc[e.term := e.value], epoch, cur, touched, sum + (e.value - acc[e.term]), entries + [e])
  {
    hide FirstTouches, Mass, MaxAt, PoolOf;
    TouchStep(entries, e);
    RaisePool(touched, epoch, cur, entries, e);
    RaiseStamped(acc, epoch, cur, entries, e);
  }

  /** A later value that does not exceed the maximum. */
  lemma PoolKeep(acc: seq<real>, epoch: seq<nat>, cur: nat, touched: seq<nat>, sum: real, entries: Row, e: Entry)
    requires Pooling(acc, epoch, cur, touched, sum, entries)
    requires e.term < |epoch| && epoch[e.term] == cur && e.value <= acc[e.term]
    ensures Pooling(acc, epoch, cur, touched, sum, entries + [e])
  {
    hide FirstTouches, Mass, MaxAt;
    TouchStep(entries, e);
    AppendEffect(entries, e);
    hide Carries;
    assert PoolOf(touched, entries + [e]) == PoolOf(touched, entries);
  }

  /** Folds one entry into the accumulator. */
  method Touch(acc: array<real>, epoch: array<nat>, cur: nat, touched: seq<nat>, sum: real, ghost entries: Row, e: Entry)
    returns (newTouched: seq<nat>, newSum: real)
    requires Pooling(acc[..], epoch[..], cur, touched, sum, entries) && e.term < epoch.Length
    modifies acc, epoch
    ensures Pooling(acc[..], epoch[..], cur, newTouched, newSum, entries + [e])
  {
    newTouched, newSum := touched, sum;
    ghost var acc0, epoch0 := acc[..], epoch[..];
    if epoch[e.term] != cur {
      PoolFirstTouch(acc0, epoch0, cur, touched, sum, entries, e);
      hide Pooling;
      epoch[e.term] := cur;
      var value := if e.value > 0.0 then e.value else 0.0;
      acc[e.term] := value;
      newTouched := newTouched + [e.term];
      newSum := newSum + value;
      assert acc[..] == acc0[e.term := value] && epoch[..] == epoch0[e.term := cur];
    } else if e.value > acc[e.term] {
      PoolRaise(acc0, epoch0, cur, touched, sum, entries, e);
      hide Pooling;
      newSum := newSum + (e.value - acc[e.term]);
      acc[e.term] := e.value;
      assert acc[..] == acc0[e.term := e.value] && epoch[..] == epoch0;
    } else {
      PoolKeep(acc0, epoch0, cur, touched, sum, entries, e);
    }
  }

  /** A fresh epoch starts an empty pool whatever the buffers still hold. */
  lemma FreshEpoch(acc: seq<real>, epoch: seq<nat>, cur: nat)
    requires |acc| == |epoch| && forall t :: 0 <= t < |epoch| ==> epoch[t] <= cur
    ensures Pooling(acc, epoch, cur + 1, [], 0.0, [])
  {
  }

  lemma PoolingIsPool(acc: seq<real>, epoch: seq<nat>, cur: nat, touched: seq<nat>, sum: real, entries: Row)
    requires Pooling(acc, epoch, cur, touched, sum, entries) && TermsBelow(entries, |epoch|)
    ensures IsPool(PoolOf(touched, entries), entries)
  {
    var pool := PoolOf(touched, entries);
    forall t: nat | Carries(entries, t)
      ensures Carries(pool, t)
    {
      var i :| 0 <= i < |touched| && touched[i] == t;
      assert pool[i].term == t;
    }
  }

  /** Pools one cluster's documents. */
  method PoolCluster(rows: seq<Row>, docs: seq<nat>, dim: nat, acc: array<real>, epoch: array<nat>, cur: nat)
    returns (touched: seq<nat>, sum: real)
    requires forall i :: 0 <= i < |docs| ==> docs[i] < |rows|
    requires forall d :: 0 <= d < |rows| ==> TermsBelow(rows[d], dim)
    requires acc.Length == epoch.Length == dim
    requires Pooling(acc[..], epoch[..], cur, [], 0.0, [])
    modifies acc, epoch
    ensures Pooling(acc[..], epoch[..], cur, touched, sum, Gather(rows, docs))
  {
    touched, sum := [], 0.0;
    hide Pooling;
    for i := 0 to |docs|
      invariant Pooling(acc[..], epoch[..], cur, touched, sum, Gather(rows, docs[..i]))
    {
      var row := rows[docs[i]];
      ghost var base := Gather(rows, docs[..i]);
      assert base + row[..0] == base;
      for j := 0 to |row|
        invariant Pooling(acc[..], epoch[..], cur, touched, sum, base + row[..j])
      {
        touched, sum := Touch(acc, epoch, cur, touched, sum, base + row[..j], row[j]);
        assert base + row[..j + 1] == (base + row[..j]) + [row[j]];
      }
      assert docs[..i + 1][..i] == docs[..i];
      assert base + row[..|row|] == Gather(rows, docs[..i + 1]);
    }
    assert docs[..|docs|] == docs;
  }

  // ---------------------------------------------------------------- the alpha cut

  ghost predicate Descending(order: Row) {
    forall i, j :: 0 <= i < j < |order| ==> order[i].value >= order[j].value
  }

  ghost predicate AscendingTerms(row: Row) {
    forall i, j :: 0 <= i < j < |row| ==> row[i].term < row[j].term
  }

  /** The share of the mass the cut has to keep. */
  ghost function Target(alpha: real, sum: real): real {
    alpha * sum
  }

  /**
   * n is the shortest non-empty prefix of the descending order that holds an alpha share of the
   * mass; without mass everything stays.
   */
  ghost predicate IsCut(order: Row, n: nat, pool: Row, alpha: real) {
    && multiset(order) == multiset(pool) && Descending(order) && n <= |order|
    && (forall m :: 1 <= m < n && Mass(pool) > 0.0 ==> Mass(order[..m]) < Target(alpha, Mass(pool)))
    && (n < |order| ==> n >= 1 && Mass(pool) > 0.0 && Mass(order[..n]) >= Target(alpha, Mass(pool)))
  }

  /** The kept prefix, re-sorted by term. */
  ghost predicate IsSummary(summary: Row, pool: Row, alpha: real) {
    && AscendingTerms(summary)
    && exists order: Row, n: nat :: IsCut(order, n, pool, alpha) && multiset(summary) == multiset(order[..n])
  }

  /** What a pool is cut by: the largest value comes first. */
  function ByWeight(e: Entry): real {
    -e.value
  }

  function ByTerm(e: Entry): real {
    e.term as real
  }

  /** The cut, looked for from entry j of the descending order on. */
  ghost function CutFrom(order: Row, sum: real, alpha: real, j: nat): (n: nat)
    ensures n <= |order|
    decreases |order| - j
  {
    if j >= |order| then |order|
    else if sum > 0.0 && Mass(order[..j + 1]) >= Target(alpha, sum) then j + 1
    else CutFrom(order, sum, alpha, j + 1)
  }

  /** The alpha cut of a pool, as a function of the pool. */
  ghost function CutSummary(pool: Row, alpha: real): Row {
    var order := Sorting.Sorted(pool, ByWeight);
    Sorting.Sorted(order[..CutFrom(order, Mass(pool), alpha, 0)], ByTerm)
  }

  lemma ShareTest(addup: real, sum: real, alpha: real)
    requires sum > 0.0
    ensures addup / sum >= alpha <==> addup >= Target(alpha, sum)
  {
    if addup / sum >= alpha {
      ScaleMonotone(sum, alpha, addup / sum);
    }
    if addup >= alpha * sum {
      ScaleMonotone(1.0 / sum, alpha * sum, addup);
    }
  }

  /** How many entries of the descending order stay; all of them when there is no mass to divide by. */
  method CutPoint(order: Row, sum: real, alpha: real, ghost pool: Row) returns (n: nat)
    requires multiset(order) == multiset(pool) && Descending(order)
    requires sum == Mass(pool) >= 0.0
    ensures n == CutFrom(order, sum, alpha, 0)
    ensures IsCut(order, n, pool, alpha)
  {
    hide Target;
    var addup := 0.0;
    for j := 0 to |order|
      invariant addup == Mass(order[..j]) && CutFrom(order, sum, alpha, j) == CutFrom(order, sum, alpha, 0)
      invariant forall m :: 1 <= m <= j && sum > 0.0 ==> Mass(order[..m]) < Target(alpha, sum)
    {
      addup := addup + order[j].value;
      assert order[..j + 1][..j] == order[..j];
      if sum > 0.0 {
        ShareTest(addup, sum, alpha);
        if addup / sum >= alpha {
          return j + 1;
        }
      }
    }
    return |order|;
  }

  /** Prunes a cluster's pool at the alpha mass cutoff (summarize_emit_cluster_). */
  method EmitCluster(pairs: Row, sum: real, alpha: real) returns (summary: Row)
    requires DistinctTerms(pairs) && NonNegative(pairs) && sum == Mass(pairs)
    ensures summary == CutSummary(pairs, alpha)
    ensures IsSummary(summary, pairs, alpha)
  {
    MassNonNegative(pairs);
    var order := Sorting.SortBy(pairs, ByWeight);
    assert Descending(order) by {
      forall i, j | 0 <= i < j < |order|
        ensures order[i].value >= order[j].value
      {
        assert ByWeight(order[i]) <= ByWeight(order[j]);
      }
    }
    var n := CutPoint(order, sum, alpha, pairs);
    summary := Sorting.SortBy(order[..n], ByTerm);
    DistinctPermuted(pairs, order);
    DistinctPermuted(order[..n], summary);
    assert forall i, j :: 0 <= i < j < |summary| ==> ByTerm(summary[i]) <= ByTerm(summary[j]);
  }

  /** Distinctness of terms is a property of the multiset. */
  lemma {:induction false} DistinctPermuted(a: Row, b: Row)
    requires multiset(a) == multiset(b) && DistinctTerms(a)
    ensures DistinctTerms(b)
  {
    forall i, j | 0 <= i < j < |b|
      ensures b[i].term != b[j].term
    {
      if b[i].term == b[j].term {
        SameTermSameEntry(a, b, i, j);
        TwiceInMultiset(b, i, j);
        AtMostOnce(a, b[i]);
      }
    }
  }

  lemma SameTermSameEntry(a: Row, b: Row, i: nat, j: nat)
    requires multiset(a) == multiset(b) && DistinctTerms(a)
    requires i < |b| && j < |b| && b[i].term == b[j].term
    ensures b[i] == b[j]
  {
    assert b[i] in multiset(b) && b[j] in multiset(b);
    var p :| 0 <= p < |a| && a[p] == b[i];
    var q :| 0 <= q < |a| && a[q] == b[j];
  }

  lemma TwiceInMultiset(b: Row, i: nat, j: nat)
    requires i < j < |b| && b[i] == b[j]
    ensures multiset(b)[b[i]] >= 2
  {
    Sorting.RemoveContents(b, j);
    assert (b[..j] + b[j + 1..])[i] == b[i];
    assert b[i] in multiset(b[..j] + b[j + 1..]);
  }

  lemma {:induction false} AtMostOnce(a: Row, e: Entry)
    requires DistinctTerms(a)
    ensures multiset(a)[e] <= 1
  {
    if a != [] {
      var init, last := a[..|a| - 1], a[|a| - 1];
      assert a == init + [last];
      AtMostOnce(init, e);
      if last == e {
        assert e !in init;
      }
    }
  }

  // ---------------------------------------------------------------- whole lists of clusters

  /** Cluster boundaries into the flattened membership. */
  ghost predicate ValidOffsets(docs: seq<nat>, offsets: seq<nat>) {
    && offsets != [] && offsets[0] == 0 && offsets[|offsets| - 1] == |docs|
    && forall i, j :: 0 <= i <= j < |offsets| ==> offsets[i] <= offsets[j]
  }

  function ClusterDocs(docs: seq<nat>, offsets: seq<nat>, i: nat): seq<nat>
    requires ValidOffsets(docs, offsets) && i + 1 < |offsets|
  {
    docs[offsets[i]..offsets[i + 1]]
  }

  /** The summary is the alpha cut of the max-pool of the cluster's documents. */
  ghost predicate SummaryOf(summary: Row, rows: seq<Row>, docs: seq<nat>, alpha: real)
    requires forall i :: 0 <= i < |docs| ==> docs[i] < |rows|
  {
    exists pool: Row :: IsPool(pool, Gather(rows, docs)) && IsSummary(summary, pool, alpha)
  }

  /** The summary of a cluster, as a function of its documents. */
  ghost function SummaryFor(rows: seq<Row>, docs: seq<nat>, alpha: real): Row
    requires forall i :: 0 <= i < |docs| ==> docs[i] < |rows|
  {
    CutSummary(PoolFor(Gather(rows, docs)), alpha)
  }

  lemma {:induction false} GatherBelow(rows: seq<Row>, docs: seq<nat>, dim: nat)
    requires forall i :: 0 <= i < |docs| ==> docs[i] < |rows|
    requires forall d :: 0 <= d < |rows| ==> TermsBelow(rows[d], dim)
    ensures TermsBelow(Gather(rows, docs), dim)
  {
    if docs != [] {
      GatherBelow(rows, docs[..|docs| - 1], dim);
    }
  }

  /**
   * Summarizes every cluster with one accumulator that is never reset: each summary is what a fresh
   * pool of its own cluster would give.
   */
  method Summarize(rows: seq<Row>, dim: nat, docs: seq<nat>, offsets: seq<nat>, alpha: real) returns (summaries: seq<Row>)
    requires ValidOffsets(docs, offsets)
    requires forall i :: 0 <= i < |docs| ==> docs[i] < |rows|
    requires forall d :: 0 <= d < |rows| ==> TermsBelow(rows[d], dim)
    ensures |summaries| == |offsets| - 1
    ensures forall i :: 0 <= i < |summaries| ==> summaries[i] == SummaryFor(rows, ClusterDocs(docs, offsets, i), alpha)
    ensures forall i :: 0 <= i < |summaries| ==> SummaryOf(summaries[i], rows, ClusterDocs(docs, offsets, i), alpha)
  {
    hide SummaryOf, SummaryFor, TermsBelow;
    var acc := new real[dim](_ => 0.0);
    var epoch := new nat[dim](_ => 0);
    var curEpoch := 0;
    summaries := [];
    for i := 0 to |offsets| - 1
      invariant |summaries| == i
      invariant forall t :: 0 <= t < dim ==> epoch[t] <= curEpoch
      invariant forall j :: 0 <= j < i ==> summaries[j] == SummaryFor(rows, ClusterDocs(docs, offsets, j), alpha)
      invariant forall j :: 0 <= j < i ==> SummaryOf(summaries[j], rows, ClusterDocs(docs, offsets, j), alpha)
    {
      var summary := SummarizeCluster(rows, dim, ClusterDocs(docs, offsets, i), alpha, acc, epoch, curEpoch + 1);
      curEpoch := curEpoch + 1;
      summaries := summaries + [summary];
    }
  }

  method SummarizeCluster(rows: seq<Row>, dim: nat, docs: seq<nat>, alpha: real,
                          acc: array<real>, epoch: array<nat>, cur: nat) returns (summary: Row)
    requires forall i :: 0 <= i < |docs| ==> docs[i] < |rows|
    requires forall d :: 0 <= d < |rows| ==> TermsBelow(rows[d], dim)
    requires acc.Length == epoch.Length == dim && cur > 0
    requires forall t :: 0 <= t < dim ==> epoch[t] < cur
    modifies acc, epoch
    ensures forall t :: 0 <= t < dim ==> epoch[t] <= cur
    ensures summary == SummaryFor(rows, docs, alpha)
    ensures SummaryOf(summary, rows, docs, alpha)
  {
    hide MaxAt, Carries, Mass, IsSummary, Gather, CutSummary, FirstTouches;
    FreshEpoch(acc[..], epoch[..], cur - 1);
    var touched, sum := PoolCluster(rows, docs, dim, acc, epoch, cur);
    ghost var entries := Gather(rows, docs);
    GatherBelow(rows, docs, dim);
    PoolingIsPool(acc[..], epoch[..], cur, touched, sum, entries);
    assert forall t :: 0 <= t < dim ==> epoch[..][t] == epoch[t];
    var pairs: Row := [];
    for i := 0 to |touched|
      invariant |pairs| == i
      invariant forall j :: 0 <= j < i ==> pairs[j] == PoolOf(touched, entries)[j]
    {
      assert acc[..][touched[i]] == acc[touched[i]];
      pairs := pairs + [Entry(touched[i], acc[touched[i]])];
    }
    assert pairs == PoolOf(touched, entries);
    forall i | 0 <= i < |pairs|
      ensures pairs[i].value >= 0.0
    {
      MaxAtNonNegative(entries, touched[i]);
    }
    summary := EmitCluster(pairs, sum, alpha);
  }

  // ---------------------------------------------------------------- the bound a full summary gives

  lemma {:induction false} GatherContains(rows: seq<Row>, docs: seq<nat>, k: nat, i: nat)
    requires forall j :: 0 <= j < |docs| ==> docs[j] < |rows|
    requires k < |docs| && i < |rows[docs[k]]|
    ensures rows[docs[k]][i] in Gather(rows, docs)
  {
    if k < |docs| - 1 {
      GatherContains(rows, docs[..|docs| - 1], k, i);
    }
  }

  lemma RowBelowPool(rows: seq<Row>, docs: seq<nat>, k: nat, t: nat)
    requires forall j :: 0 <= j < |docs| ==> docs[j] < |rows|
    requires k < |docs| && DistinctTerms(rows[docs[k]])
    ensures At(rows[docs[k]], t) <= MaxAt(Gather(rows, docs), t)
  {
    var row, entries := rows[docs[k]], Gather(rows, docs);
    if Carries(row, t) {
      var i :| 0 <= i < |row| && row[i].term == t;
      AtPresent(row, i);
      GatherContains(rows, docs, k, i);
      var p :| 0 <= p < |entries| && entries[p] == row[i];
      MaxAtBounds(entries, p);
    } else {
      AtAbsent(row, t);
      MaxAtNonNegative(entries, t);
    }
  }

  lemma FullTarget(alpha: real, sum: real)
    requires alpha >= 1.0 && sum >= 0.0
    ensures Target(alpha, sum) >= sum
  {
    ScaleMonotone(sum, 1.0, alpha);
  }

  lemma MassSplit(order: Row, n: nat)
    requires n <= |order|
    ensures Mass(order) == Mass(order[..n]) + Mass(order[n..])
  {
    assert order == order[..n] + order[n..];
    MassAppend(order[..n], order[n..]);
  }

  /** What an alpha of one or more drops carries no weight. */
  lemma DroppedIsZero(order: Row, n: nat, pool: Row, alpha: real)
    requires IsCut(order, n, pool, alpha) && NonNegative(pool) && alpha >= 1.0
    ensures forall i :: n <= i < |order| ==> order[i].value == 0.0
  {
    hide Target, Mass;
    var rest := order[n..];
    forall i | 0 <= i < |rest|
      ensures rest[i].value >= 0.0
    {
      assert order[n + i] in multiset(order);
    }
    if n < |order| {
      MassPermutes(order, pool);
      MassSplit(order, n);
      FullTarget(alpha, Mass(pool));
      MassNonNegative(rest);
      assert forall i :: n <= i < |order| ==> order[i] == rest[i - n];
    }
  }

  lemma PoolBelowSummary(summary: Row, pool: Row, entries: Row, alpha: real, t: nat)
    requires IsPool(pool, entries) && IsSummary(summary, pool, alpha) && alpha >= 1.0
    ensures NonNegative(summary)
    ensures MaxAt(entries, t) <= At(summary, t)
  {
    var order, n :| IsCut(order, n, pool, alpha) && multiset(summary) == multiset(order[..n]);
    PoolNonNegative(pool, entries);
    SummaryFromPool(summary, order, n, pool);
    AtNonNegative(summary, t);
    if Carries(entries, t) {
      var i :| 0 <= i < |pool| && pool[i].term == t;
      assert pool[i] in multiset(order);
      var p :| 0 <= p < |order| && order[p] == pool[i];
      if p < n {
        assert order[..n][p] == order[p];
        assert order[p] in multiset(summary);
        var q :| 0 <= q < |summary| && summary[q] == order[p];
        AtPresent(summary, q);
      } else {
        DroppedIsZero(order, n, pool, alpha);
      }
    } else {
      MaxAtAbsent(entries, t);
    }
  }

  lemma PoolNonNegative(pool: Row, entries: Row)
    requires IsPool(pool, entries)
    ensures NonNegative(pool)
  {
    forall i | 0 <= i < |pool|
      ensures pool[i].value >= 0.0
    {
      MaxAtNonNegative(entries, pool[i].term);
    }
  }

  lemma SummaryFromPool(summary: Row, order: Row, n: nat, pool: Row)
    requires multiset(order) == multiset(pool) && n <= |order| && multiset(summary) == multiset(order[..n])
    requires NonNegative(pool)
    ensures NonNegative(summary)
    ensures forall e :: e in summary ==> e in pool
  {
    forall e | e in summary
      ensures e in pool
    {
      assert e in multiset(summary);
      assert e in order[..n];
      assert e in multiset(order);
    }
    assert forall i :: 0 <= i < |summary| ==> summary[i] in summary;
  }

  /**
   * At alpha >= 1 a cluster's summary scores at least as high as any of its documents, for every
   * non-negative query.
   */
  lemma SummaryBounds(summary: Row, rows: seq<Row>, docs: seq<nat>, alpha: real, k: nat, query: Row)
    requires forall j :: 0 <= j < |docs| ==> docs[j] < |rows|
    requires SummaryOf(summary, rows, docs, alpha) && alpha >= 1.0
    requires k < |docs| && DistinctTerms(rows[docs[k]])
    requires NonNegative(query)
    ensures Dot(rows[docs[k]], query) <= Dot(summary, query)
    ensures 0.0 <= Dot(summary, query) && NonNegative(summary)
  {
    var entries := Gather(rows, docs);
    var pool :| IsPool(pool, entries) && IsSummary(summary, pool, alpha);
    forall t: nat
      ensures NonNegative(summary) && At(rows[docs[k]], t) <= At(summary, t)
    {
      RowBelowPool(rows, docs, k, t);
      PoolBelowSummary(summary, pool, entries, alpha, t);
    }
    assert NonNegative(summary) by {
      PoolBelowSummary(summary, pool, entries, alpha, 0);
    }
    DotMonotone(rows[docs[k]], summary, query);
    DotNonNegative(summary, query);
  }
}
