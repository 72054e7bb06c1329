/** One posting list's clusters: flattened membership and the transposed summary store. */
module InvertedListClusters {
  import opened SparseDot
  import opened SparseVectors
  import opened CountingSort
  import opened Summaries
  import Sorting

  // ---------------------------------------------------------------- term columns

  ghost predicate StrictlyIncreasing(ids: seq<nat>) {
    forall i, j :: 0 <= i < j < |ids| ==> ids[i] < ids[j]
  }

  /** std::lower_bound between lo and hi. */
  function LowerBoundIn(ids: seq<nat>, lo: nat, hi: nat, t: nat): (at: nat)
    requires lo <= hi <= |ids|
    ensures lo <= at <= hi
    ensures StrictlyIncreasing(ids) ==> forall p :: lo <= p < at ==> ids[p] < t
    ensures StrictlyIncreasing(ids) ==> forall p :: at <= p < hi ==> t <= ids[p]
    decreases hi - lo
  {
    if lo == hi then lo
    else
      var mid := (lo + hi) / 2;
      if ids[mid] < t then LowerBoundIn(ids, mid + 1, hi, t) else LowerBoundIn(ids, lo, mid, t)
  }

  /** The column of a term: its index in the ascending term ids. */
  function TermColumn(ids: seq<nat>, t: nat): nat {
    LowerBoundIn(ids, 0, |ids|, t)
  }

  lemma TermColumnFinds(ids: seq<nat>, t: nat)
    requires StrictlyIncreasing(ids)
    ensures t in ids <==> TermColumn(ids, t) < |ids| && ids[TermColumn(ids, t)] == t
  {
    if t in ids {
      var p :| 0 <= p < |ids| && ids[p] == t;
      assert TermColumn(ids, t) <= p;
    }
  }

  ghost predicate CoversTerms(ids: seq<nat>, rows: seq<Row>) {
    forall i, j :: 0 <= i < |rows| && 0 <= j < |rows[i]| ==> rows[i][j].term in ids
  }

  lemma EntryNeedsTerm(ids: seq<nat>, rows: seq<Row>, i: nat)
    requires CoversTerms(ids, rows) && i < |rows| && rows[i] != []
    ensures ids != []
  {
    assert rows[i][0].term in ids;
  }

  /** All the rows' terms, in storage order. */
  function AllTerms(rows: seq<Row>): seq<nat> {
    if rows == [] then []
    else
      var last := rows[|rows| - 1];
      AllTerms(rows[..|rows| - 1]) + seq(|last|, j requires 0 <= j < |last| => last[j].term)
  }

  lemma {:induction false} AllTermsCover(rows: seq<Row>)
    ensures CoversTerms(AllTerms(rows), rows)
  {
    if rows != [] {
      var init, last := rows[..|rows| - 1], rows[|rows| - 1];
      AllTermsCover(init);
      var tail := seq(|last|, j requires 0 <= j < |last| => last[j].term);
      forall i, j | 0 <= i < |rows| && 0 <= j < |rows[i]|
        ensures rows[i][j].term in AllTerms(rows)
      {
        if i < |init| {
          assert init[i] == rows[i];
        } else {
          assert tail[j] == last[j].term;
        }
      }
    }
  }

  /** std::unique over a sorted sequence. */
  method Unique(sorted: seq<nat>) returns (ids: seq<nat>)
    requires forall i, j :: 0 <= i < j < |sorted| ==> sorted[i] <= sorted[j]
    ensures StrictlyIncreasing(ids)
    ensures forall t :: t in ids <==> t in sorted
  {
    ids := [];
    for i := 0 to |sorted|
      invariant StrictlyIncreasing(ids)
      invariant forall t :: t in ids <==> t in sorted[..i]
      invariant ids == [] <==> i == 0
      invariant i > 0 ==> ids[|ids| - 1] == sorted[i - 1]
    {
      assert sorted[..i + 1] == sorted[..i] + [sorted[i]];
      if i == 0 || sorted[i] != sorted[i - 1] {
        assert i > 0 ==> forall p :: 0 <= p < |ids| ==> ids[p] <= ids[|ids| - 1] < sorted[i];
        ids := ids + [sorted[i]];
      }
    }
    assert sorted[..|sorted|] == sorted;
  }

  /** The distinct terms of the summaries, ascending. */
  method DistinctAscendingTerms(rows: seq<Row>) returns (ids: seq<nat>)
    ensures StrictlyIncreasing(ids) && CoversTerms(ids, rows)
    ensures forall t :: t in ids <==> t in AllTerms(rows)
  {
    var sorted := Sorting.SortBy(AllTerms(rows), (t: nat) => t as real);
    assert forall i, j :: 0 <= i < j < |sorted| ==> sorted[i] as real <= sorted[j] as real;
    ids := Unique(sorted);
    AllTermsCover(rows);
    forall t
      ensures t in ids <==> t in AllTerms(rows)
    {
      assert t in multiset(sorted) <==> t in multiset(AllTerms(rows));
    }
  }

  // ---------------------------------------------------------------- the clusters

  function Flatten(groups: seq<seq<nat>>): seq<nat> {
    if groups == [] then [] else Flatten(groups[..|groups| - 1]) + groups[|groups| - 1]
  }

  /** Appending a group adds one cluster and leaves the others as they are. */
  lemma AppendGroup(docs: seq<nat>, offsets: seq<nat>, group: seq<nat>)
    requires ValidOffsets(docs, offsets)
    ensures ValidOffsets(docs + group, offsets + [|docs + group|])
    ensures forall j :: 0 <= j < |offsets| - 1 ==>
              ClusterDocs(docs + group, offsets + [|docs + group|], j) == ClusterDocs(docs, offsets, j)
    ensures ClusterDocs(docs + group, offsets + [|docs + group|], |offsets| - 1) == group
  {
    forall j | 0 <= j < |offsets| - 1
      ensures ClusterDocs(docs + group, offsets + [|docs + group|], j) == ClusterDocs(docs, offsets, j)
    {
      assert (docs + group)[offsets[j]..offsets[j + 1]] == docs[offsets[j]..offsets[j + 1]];
    }
  }

  class InvertedListClusters {
    var docs: seq<nat>
    var offsets: seq<nat>
    var nClusters: nat
    var termIds: seq<nat>
    var termPtr: seq<nat>
    var csc: seq<Posting>
    /** The per-cluster summaries the transpose was built from. */
    ghost var summaries: seq<Row>

    /** The membership is well formed, or was never stored. */
    ghost predicate ValidMembership()
      reads this
    {
      offsets == [] || ValidOffsets(docs, offsets)
    }

    ghost predicate ValidStore()
      reads this
    {
      && |summaries| == nClusters
      && StrictlyIncreasing(termIds) && CoversTerms(termIds, summaries)
      && (termIds != [] ==> IsTranspose(termPtr, csc, termIds, summaries))
    }

    ghost predicate Valid()
      reads this
    {
      ValidMembership() && ValidStore()
    }

    /** Flattens the groups. */
    constructor (groups: seq<seq<nat>>)
      ensures Valid() && nClusters == 0
      ensures groups == [] ==> offsets == [] && docs == []
      ensures groups != [] ==> |offsets| == |groups| + 1 && docs == Flatten(groups)
      ensures forall i :: 0 <= i < |groups| ==> GetDocs(i) == groups[i]
    {
      docs, offsets := [], [];
      nClusters, termIds, termPtr, csc, summaries := 0, [], [], [], [];
      new;
      if groups != [] {
        var flatDocs: seq<nat> := [];
        var bounds: seq<nat> := [0];
        for i := 0 to |groups|
          invariant |bounds| == i + 1 && ValidOffsets(flatDocs, bounds)
          invariant flatDocs == Flatten(groups[..i])
          invariant forall j :: 0 <= j < i ==> ClusterDocs(flatDocs, bounds, j) == groups[j]
          invariant docs == [] && offsets == [] && nClusters == 0 && termIds == [] && summaries == []
        {
          assert groups[..i + 1][..i] == groups[..i];
          AppendGroup(flatDocs, bounds, groups[i]);
          flatDocs := flatDocs + groups[i];
          bounds := bounds + [|flatDocs|];
        }
        assert groups[..|groups|] == groups;
        docs, offsets := flatDocs, bounds;
      }
    }

    /** Takes over a store that was read back. */
    constructor Loaded(docs: seq<nat>, offsets: seq<nat>, nClusters: nat, termIds: seq<nat>, termPtr: seq<nat>, csc: seq<Posting>,
                       ghost summaries: seq<Row>)
      ensures this.docs == docs && this.offsets == offsets && this.nClusters == nClusters
      ensures this.termIds == termIds && this.termPtr == termPtr && this.csc == csc && this.summaries == summaries
    {
      this.docs, this.offsets, this.nClusters := docs, offsets, nClusters;
      this.termIds, this.termPtr, this.csc, this.summaries := termIds, termPtr, csc, summaries;
    }

    /** The documents of a cluster; none when the membership is not stored. */
    function GetDocs(idx: nat): seq<nat>
      requires ValidMembership()
      reads this
    {
      if |offsets| < idx + 2 then [] else ClusterDocs(docs, offsets, idx)
    }

    /** Summarizes every cluster and keeps only the transpose. */
    method Summarize(rows: seq<Row>, dim: nat, alpha: real)
      requires Valid()
      requires forall i :: 0 <= i < |docs| ==> docs[i] < |rows|
      requires forall d :: 0 <= d < |rows| ==> TermsBelow(rows[d], dim)
      modifies this`nClusters, this`termIds, this`termPtr, this`csc, this`summaries
      ensures Valid()
      ensures nClusters == if offsets == [] then 0 else |offsets| - 1
      ensures forall i: nat :: GetDocs(i) == old(GetDocs(i))
      ensures forall i :: 0 <= i < nClusters ==>
                (forall j :: 0 <= j < |GetDocs(i)| ==> GetDocs(i)[j] < |rows|)
                && summaries[i] == SummaryFor(rows, GetDocs(i), alpha) && SummaryOf(summaries[i], rows, GetDocs(i), alpha)
    {
      var computed: seq<Row> := [];
      if |offsets| > 1 {
        computed := Summaries.Summarize(rows, dim, docs, offsets, alpha);
      }
      BuildTranspose(computed);
    }

    /** Replaces the store with the term-major transpose of the summaries. */
    method BuildTranspose(computed: seq<Row>)
      modifies this`nClusters, this`termIds, this`termPtr, this`csc, this`summaries
      ensures ValidStore() && summaries == computed && nClusters == |computed|
    {
      summaries := computed;
      nClusters := |computed|;
      termIds, termPtr, csc := [], [], [];
      if nClusters == 0 {
        return;
      }
      var ids := DistinctAscendingTerms(computed);
      forall i, j | 0 <= i < |computed| && 0 <= j < |computed[i]|
        ensures TermColumn(ids, computed[i][j].term) < |ids| && ids[TermColumn(ids, computed[i][j].term)] == computed[i][j].term
      {
        TermColumnFinds(ids, computed[i][j].term);
      }
      var ptr, cells := Transpose(computed, |ids|, t => TermColumn(ids, t), ids);
      termIds, termPtr, csc := ids, ptr, cells;
    }

    /** Scores every cluster's summary against the query, term by term through the transpose. */
    method ScoreSummariesTransposed(query: Row) returns (out: seq<real>)
      requires ValidStore()
      ensures |out| == nClusters
      ensures forall c :: 0 <= c < nClusters ==> out[c] == Dot(summaries[c], query)
    {
      if nClusters == 0 || termIds == [] {
        forall c | 0 <= c < nClusters
          ensures Dot(summaries[c], query) == 0.0
        {
          DotOfEmptyRow(query);
          if summaries[c] != [] {
            EntryNeedsTerm(termIds, summaries, c);
          }
        }
        return seq(nClusters, _ => 0.0);
      }
      var acc := new real[nClusters](_ => 0.0);
      for i := 0 to |query|
        invariant forall c :: 0 <= c < nClusters ==> acc[c] == Dot(summaries[c], query[..i])
      {
        var e := query[i];
        assert query[..i + 1][..i] == query[..i];
        var col := TermColumn(termIds, e.term);
        TermColumnFinds(termIds, e.term);
        if col == |termIds| || termIds[col] != e.term {
          forall c | 0 <= c < nClusters
            ensures Weighted(e.value, summaries[c], e.term) == 0.0
          {
            assert !Carries(summaries[c], e.term);
            WeightedAbsent(e.value, summaries[c], e.term);
          }
        } else {
          AddColumn(termPtr, csc, col, e.value, acc, termIds, summaries);
        }
      }
      assert query[..|query|] == query;
      out := acc[..];
    }
  }
}
