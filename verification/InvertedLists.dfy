/** Posting lists: the transposed corpus, with the maximum each list can contribute. */
module InvertedLists {
  import opened SparseDot
  import opened SparseVectors
  import opened TermScan
  import opened TopK
  import Sorting

  /** A value, or the reason of the exception thrown instead. */
  datatype Result<+T> = Ok(value: T) | Failed(reason: string) {
    predicate IsFailure() {
      Failed?
    }

    function PropagateFailure<U>(): Result<U>
      requires Failed?
    {
      Failed(reason)
    }

    function Extract(): T
      requires Ok?
    {
      value
    }
  }

  /** The largest stored value, never below zero (max_value). */
  method MaxValue(list: seq<Posting>) returns (maxVal: real)
    ensures maxVal >= 0.0
    ensures forall p :: 0 <= p < |list| ==> list[p].value <= maxVal
    ensures maxVal == 0.0 || exists p :: 0 <= p < |list| && list[p].value == maxVal
  {
    maxVal := 0.0;
    for i := 0 to |list|
      invariant maxVal >= 0.0
      invariant forall p :: 0 <= p < i ==> list[p].value <= maxVal
      invariant maxVal == 0.0 || exists p :: 0 <= p < i && list[p].value == maxVal
    {
      if list[i].value > maxVal {
        maxVal := list[i].value;
      }
    }
  }

  /** Every term below n is its own column. */
  function Identity(n: nat): (columns: seq<nat>)
    ensures |columns| == n && forall t :: 0 <= t < n ==> columns[t] == t
    ensures ValidColumns(columns)
  {
    seq(n, t => t)
  }

  ghost predicate RowsBelow(rows: seq<Row>, i: nat, nTerm: nat) {
    i <= |rows| && forall d :: 0 <= d < i ==> TermsBelow(rows[d], nTerm)
  }

  lemma BelowStep(row: Row, j: nat, nTerm: nat)
    requires j < |row| && TermsBelow(row[..j], nTerm)
    ensures row[j].term < nTerm ==> TermsBelow(row[..j + 1], nTerm)
    ensures row[j].term >= nTerm ==> !TermsBelow(row, nTerm)
  {
  }

  /** First pass: postings per term, rejecting a term outside the dimension. */
  method CountPostings(csr: Csr, nTerm: nat) returns (counts: Result<seq<nat>>)
    requires csr.Valid()
    ensures counts.Ok? <==> RowsBelow(csr.Rows(), csr.Count(), nTerm)
    ensures counts.Ok? ==> |counts.value| == nTerm
    ensures counts.Ok? ==> forall t :: 0 <= t < nTerm ==> counts.value[t] == |PostingsOf(csr.Rows(), t)|
  {
    var c: seq<nat> := seq(nTerm, _ => 0);
    ghost var staged: seq<seq<Posting>> := seq(nTerm, _ => []);
    ghost var columns, rows := Identity(nTerm), csr.Rows();
    ScanStart(staged, columns, rows);
    hide StagedRows, StagedEntries, TermsBelow;
    for i := 0 to csr.Count()
      invariant |staged| == nTerm && Counts(c, staged) && StagedRows(staged, columns, rows, i)
      invariant RowsBelow(rows, i, nTerm)
    {
      var row := csr.Row(i);
      RowStart(staged, columns, rows, i);
      EmptyBelow(row[..0], nTerm);
      for j := 0 to |row|
        invariant |staged| == nTerm && Counts(c, staged) && StagedEntries(staged, columns, rows, i, j)
        invariant TermsBelow(row[..j], nTerm)
      {
        var e := row[j];
        BelowStep(row, j, nTerm);
        if e.term >= nTerm {
          return Failed("term_id out of range");
        }
        RowEntry(staged, columns, rows, i, j, e.term);
        staged := staged[e.term := staged[e.term] + [Posting(i, e.value)]];
        c := c[e.term := c[e.term] + 1];
      }
      assert row[..|row|] == row;
      RowEnd(staged, columns, rows, i);
    }
    ScanDone(staged, columns, rows);
    return Ok(c);
  }

  lemma EmptyBelow(row: Row, nTerm: nat)
    requires row == []
    ensures TermsBelow(row, nTerm)
  {
  }

  /** Appends every posting of the corpus to the list of its term, row by row. */
  method FillLists(nTerm: nat, csr: Csr) returns (staged: seq<seq<Posting>>)
    requires csr.Valid() && RowsBelow(csr.Rows(), csr.Count(), nTerm)
    ensures |staged| == nTerm
    ensures forall t :: 0 <= t < nTerm ==> staged[t] == PostingsOf(csr.Rows(), t)
  {
    staged := seq(nTerm, _ => []);
    ghost var columns, rows := Identity(nTerm), csr.Rows();
    ScanStart(staged, columns, rows);
    hide StagedRows, StagedEntries;
    for i := 0 to csr.Count()
      invariant |staged| == nTerm && StagedRows(staged, columns, rows, i)
    {
      var row := csr.Row(i);
      RowStart(staged, columns, rows, i);
      for j := 0 to |row|
        invariant |staged| == nTerm && StagedEntries(staged, columns, rows, i, j)
      {
        var e := row[j];
        RowEntry(staged, columns, rows, i, j, e.term);
        staged := staged[e.term := staged[e.term] + [Posting(i, e.value)]];
      }
      RowEnd(staged, columns, rows, i);
    }
    ScanDone(staged, columns, rows);
  }

  /** build_inverted_lists: list t becomes column t of the corpus. */
  method BuildInvertedLists(nTerm: nat, csr: Csr) returns (result: Result<seq<seq<Posting>>>)
    requires csr.Valid()
    ensures result.Ok? <==> RowsBelow(csr.Rows(), csr.Count(), nTerm)
    ensures result.Ok? ==> |result.value| == nTerm
    ensures result.Ok? ==> forall t :: 0 <= t < nTerm ==> result.value[t] == PostingsOf(csr.Rows(), t)
  {
    var counts := CountPostings(csr, nTerm);
    if counts.Failed? {
      return Failed(counts.reason);
    }
    var staged := FillLists(nTerm, csr);
    var lists := AdoptNonEmpty(counts.value, staged);
    return Ok(lists);
  }

  /** Hands over the staged lists, leaving a list without postings as it was made: empty. */
  method AdoptNonEmpty(counts: seq<nat>, staged: seq<seq<Posting>>) returns (lists: seq<seq<Posting>>)
    requires Counts(counts, staged)
    ensures lists == staged
  {
    lists := seq(|staged|, _ => []);
    for t := 0 to |staged|
      invariant |lists| == |staged|
      invariant forall u :: 0 <= u < |staged| ==> lists[u] == if u < t then staged[u] else []
    {
      if counts[t] != 0 {
        lists := lists[t := staged[t]];
      }
    }
  }

  // ---------------------------------------------------------------- pruning

  function DocsOf(list: seq<Posting>): (docs: seq<nat>)
    ensures |docs| == |list| && forall i :: 0 <= i < |docs| ==> docs[i] == list[i].doc
  {
    seq(|list|, i requires 0 <= i < |list| => list[i].doc)
  }

  ghost predicate DescendingValues(order: seq<Posting>) {
    forall i, j :: 0 <= i < j < |order| ==> order[i].value >= order[j].value
  }

  /** All documents in list order, or those of the lambda largest values, largest first. */
  ghost predicate IsPruned(kept: seq<nat>, list: seq<Posting>, lam: nat) {
    if lam == 0 || lam >= |list| then kept == DocsOf(list)
    else exists order: seq<Posting> ::
        multiset(order) == multiset(list) && |order| == |list| && DescendingValues(order) && kept == DocsOf(order[..lam])
  }

  /** What postings are sorted by: the largest value comes first. */
  function ByValue(p: Posting): real {
    -p.value
  }

  /** The documents that pruning keeps, as a function of the list. */
  function Pruned(list: seq<Posting>, lam: nat): (kept: seq<nat>) {
    if lam == 0 || lam >= |list| then DocsOf(list) else DocsOf(Sorting.Sorted(list, ByValue)[..lam])
  }

  method PruneAndKeepDocIds(list: seq<Posting>, lam: nat) returns (kept: seq<nat>)
    ensures kept == Pruned(list, lam)
    ensures IsPruned(kept, list, lam)
  {
    if lam == 0 || |list| == 0 || lam >= |list| {
      return DocsOf(list);
    }
    var order := Sorting.SortBy(list, ByValue);
    forall i, j | 0 <= i < j < |order|
      ensures order[i].value >= order[j].value
    {
      assert ByValue(order[i]) <= ByValue(order[j]);
    }
    kept := DocsOf(order[..lam]);
  }

  /** No document is kept twice, and every kept document comes from the list. */
  lemma PrunedMembers(kept: seq<nat>, list: seq<Posting>, lam: nat)
    requires IsPruned(kept, list, lam) && StrictlyAscending(list)
    ensures Distinct(kept)
    ensures forall d :: d in kept ==> exists p :: 0 <= p < |list| && list[p].doc == d
  {
    if lam != 0 && lam < |list| {
      var order: seq<Posting> :| multiset(order) == multiset(list) && |order| == |list| && DescendingValues(order)
                                 && kept == DocsOf(order[..lam]);
      OrderDistinct(order, list);
      forall i | 0 <= i < |order|
        ensures exists p :: 0 <= p < |list| && list[p].doc == order[i].doc
      {
        assert order[i] in multiset(list);
      }
    }
  }

  /** A permutation of a list of distinct documents names each once. */
  lemma {:induction false} OrderDistinct(order: seq<Posting>, list: seq<Posting>)
    requires multiset(order) == multiset(list) && Distinct(DocsOf(list))
    ensures Distinct(DocsOf(order))
    decreases |order|
  {
    if order != [] {
      var i := Sorting.Rematch(order, list);
      var init, rest := order[..|order| - 1], list[..i] + list[i + 1..];
      assert Distinct(DocsOf(rest)) by {
        assert forall a :: 0 <= a < |rest| ==> rest[a] == list[if a < i then a else a + 1];
      }
      OrderDistinct(init, rest);
      assert order[|order| - 1] == list[i];
      forall a | 0 <= a < |init|
        ensures init[a].doc != order[|order| - 1].doc
      {
        assert init[a] in multiset(rest);
        var b :| 0 <= b < |rest| && rest[b] == init[a];
        assert DocsOf(list)[if b < i then b else b + 1] == init[a].doc;
      }
    }
  }
}
