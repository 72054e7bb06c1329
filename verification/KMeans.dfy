/** One-pass k-means over a posting list: random centroids, then assignment through their transpose. */
module KMeans {
  import opened SparseDot
  import opened SparseVectors
  import opened TopK
  import opened CountingSort
  import opened InvertedLists
  import opened InvertedListClusters

  // ---------------------------------------------------------------- choosing the centroids

  /** The integer part of the square root. */
  function FloorSqrt(n: nat): (r: nat)
    ensures r * r <= n < (r + 1) * (r + 1)
  {
    if n == 0 then 0
    else
      var r := FloorSqrt(n - 1);
      if (r + 1) * (r + 1) == n then r + 1 else r
  }

  /** n is the cluster count for a list: as many as wanted, at most one a document, by default the integer root. */
  ghost predicate IsClusterCount(n: nat, nDocs: nat, wanted: nat) {
    if nDocs == 0 then n == 0
    else if wanted == 0 then n * n <= nDocs < (n + 1) * (n + 1)
    else n == Min(wanted, nDocs)
  }

  /** How many clusters a list of documents is really cut into. */
  function BoundaryCheck(nDocs: nat, nClusters: nat): (n: nat)
    ensures n >= 1 && (nDocs > 0 ==> n <= nDocs)
    ensures 1 <= nClusters <= nDocs ==> n == nClusters
    ensures nClusters > nDocs > 0 ==> n == nDocs
    ensures nClusters == 0 && nDocs > 0 ==> n * n <= nDocs < (n + 1) * (n + 1)
    ensures nDocs == 0 ==> n == 1
  {
    var wanted := if nClusters == 0 then FloorSqrt(nDocs) else nClusters;
    var capped := if wanted > nDocs then nDocs else wanted;
    if capped < 1 then 1 else capped
  }

  ghost predicate SameMembers(a: seq<nat>, b: seq<nat>) {
    forall x :: x in a <==> x in b
  }

  lemma SwapKeepsMembers(docs: seq<nat>, r: nat, last: nat)
    requires r < |docs| && last < |docs|
    ensures SameMembers(docs, docs[r := docs[last]][last := docs[r]])
    ensures Distinct(docs) ==> Distinct(docs[r := docs[last]][last := docs[r]])
  {
    var s := docs[r := docs[last]][last := docs[r]];
    forall x | x in docs
      ensures x in s
    {
      var p :| 0 <= p < |docs| && docs[p] == x;
      assert s[if p == r then last else if p == last then r else p] == x;
    }
  }

  /** The documents after n draws, the drawn ones behind the range still drawn from. */
  function Arranged(docIds: seq<nat>, n: nat, draws: nat -> nat): (docs: seq<nat>)
    requires n <= |docIds|
    ensures |docs| == |docIds|
  {
    if n == 0 then docIds
    else
      var docs := Arranged(docIds, n - 1, draws);
      var r, last := draws(n - 1) % (|docIds| - (n - 1)), |docIds| - n;
      docs[r := docs[last]][last := docs[r]]
  }

  /** One cluster per drawn document, in the order drawn; none when more are asked for than there are. */
  function Seeds(docIds: seq<nat>, nClusters: nat, draws: nat -> nat): (seeds: seq<seq<nat>>)
    ensures |seeds| == if nClusters > |docIds| then 0 else nClusters
  {
    if nClusters > |docIds| then []
    else
      var docs := Arranged(docIds, nClusters, draws);
      seq(nClusters, c requires 0 <= c < nClusters => [docs[|docIds| - 1 - c]])
  }

  /** Drawing keeps the documents, and keeps them distinct. */
  lemma {:induction false} ArrangedMembers(docIds: seq<nat>, n: nat, draws: nat -> nat)
    requires n <= |docIds|
    ensures SameMembers(docIds, Arranged(docIds, n, draws))
    ensures Distinct(docIds) ==> Distinct(Arranged(docIds, n, draws))
  {
    if n > 0 {
      ArrangedMembers(docIds, n - 1, draws);
      SwapKeepsMembers(Arranged(docIds, n - 1, draws), draws(n - 1) % (|docIds| - (n - 1)), |docIds| - n);
    }
  }

  /** Seeds are single documents of the list, distinct when the list's are. */
  lemma SeedsDrawn(docIds: seq<nat>, nClusters: nat, draws: nat -> nat)
    ensures var seeds := Seeds(docIds, nClusters, draws);
            && (forall c :: 0 <= c < |seeds| ==> |seeds[c]| == 1 && seeds[c][0] in docIds)
            && (Distinct(docIds) ==> Distinct(Heads(seeds)))
  {
    if nClusters <= |docIds| {
      hide Arranged;
      ArrangedMembers(docIds, nClusters, draws);
    }
  }

  /**
   * Draws documents without replacement: a drawn one is swapped behind the range still drawn from.
   * `draws` stands for the seeded generator, whose i-th number is brought into the i-th range.
   */
  method RandomSelectInitialCentroids(docIds: seq<nat>, nClusters: nat, draws: nat -> nat) returns (clusters: seq<seq<nat>>)
    ensures clusters == Seeds(docIds, nClusters, draws)
    ensures nClusters > |docIds| ==> clusters == []
    ensures nClusters <= |docIds| ==> |clusters| == nClusters
    ensures forall c :: 0 <= c < |clusters| ==> |clusters[c]| == 1 && clusters[c][0] in docIds
    ensures Distinct(docIds) ==> Distinct(Heads(clusters))
  {
    SeedsDrawn(docIds, nClusters, draws);
    hide Distinct, Heads;
    var docs := docIds;
    var nDocs := |docs|;
    if nClusters > nDocs || nClusters == 0 {
      return [];
    }
    clusters := seq(nClusters, _ => []);
    for i := 0 to nClusters
      invariant docs == Arranged(docIds, i, draws) && |clusters| == nClusters
      invariant forall c :: 0 <= c < i ==> clusters[c] == [docs[nDocs - 1 - c]]
      invariant forall c :: i <= c < nClusters ==> clusters[c] == []
    {
      var r := draws(i) % (nDocs - i);
      clusters := clusters[i := clusters[i] + [docs[r]]];
      docs := docs[r := docs[nDocs - 1 - i]][nDocs - 1 - i := docs[r]];
    }
    assert clusters == Seeds(docIds, nClusters, draws);
  }

  /** Later draws do not disturb an arrangement. */
  lemma {:induction false} SameDraws(docIds: seq<nat>, n: nat, draws: nat -> nat, others: nat -> nat)
    requires n <= |docIds| && forall i :: 0 <= i < n ==> draws(i) == others(i)
    ensures Arranged(docIds, n, draws) == Arranged(docIds, n, others)
  {
    if n > 0 {
      SameDraws(docIds, n - 1, draws, others);
    }
  }

  /** The chosen documents stand at the end, the first of them last. */
  ghost predicate DrawnBehind(docs: seq<nat>, chosen: seq<nat>, n: nat) {
    n <= |chosen| && n <= |docs| && forall i :: |docs| - n <= i < |docs| ==> docs[i] == chosen[|docs| - 1 - i]
  }

  /** A document that is still to be drawn stands in the range drawn from. */
  lemma DrawNext(docs: seq<nat>, chosen: seq<nat>, n: nat, r: nat)
    requires n < |chosen| <= |docs| && Distinct(chosen) && DrawnBehind(docs, chosen, n)
    requires r < |docs| && docs[r] == chosen[n]
    ensures r < |docs| - n
    ensures DrawnBehind(docs[r := docs[|docs| - 1 - n]][|docs| - 1 - n := docs[r]], chosen, n + 1)
  {
  }

  /** The draws before the n-th, then r. */
  ghost function DrawnThen(before: nat -> nat, n: nat, r: nat): nat -> nat {
    i => if i == n then r else before(i)
  }

  lemma OneMoreDraw(docIds: seq<nat>, n: nat, before: nat -> nat, r: nat)
    requires n < |docIds| && r < |docIds| - n
    ensures var docs := Arranged(docIds, n, before);
            Arranged(docIds, n + 1, DrawnThen(before, n, r)) == docs[r := docs[|docs| - 1 - n]][|docs| - 1 - n := docs[r]]
  {
    hide Arranged;
    SameDraws(docIds, n, DrawnThen(before, n, r), before);
    ArrangedStep(docIds, n, DrawnThen(before, n, r), r);
  }

  lemma ArrangedStep(docIds: seq<nat>, n: nat, draws: nat -> nat, r: nat)
    requires n < |docIds| && draws(n) == r < |docIds| - n
    ensures var docs := Arranged(docIds, n, draws);
            Arranged(docIds, n + 1, draws) == docs[r := docs[|docs| - 1 - n]][|docs| - 1 - n := docs[r]]
  {
    hide Arranged;
    SmallRemainder(r, |docIds| - n);
    ArrangedNext(docIds, n, draws);
  }

  lemma SmallRemainder(r: nat, m: nat)
    requires r < m
    ensures r % m == r
  {
  }

  lemma ArrangedNext(docIds: seq<nat>, n: nat, draws: nat -> nat)
    requires n < |docIds|
    ensures var docs, r, last := Arranged(docIds, n, draws), draws(n) % (|docIds| - n), |docIds| - 1 - n;
            Arranged(docIds, n + 1, draws) == docs[r := docs[last]][last := docs[r]]
  {
  }

  lemma NothingDrawn(docIds: seq<nat>, chosen: seq<nat>, draws: nat -> nat)
    ensures DrawnBehind(Arranged(docIds, 0, draws), chosen, 0)
  {
  }

  /** Every ordered choice of distinct documents is what some draws arrange behind the rest. */
  lemma {:induction false} EveryArrangement(docIds: seq<nat>, chosen: seq<nat>, n: nat) returns (draws: nat -> nat)
    requires Distinct(chosen) && n <= |chosen| <= |docIds|
    requires forall c :: 0 <= c < |chosen| ==> chosen[c] in docIds
    ensures DrawnBehind(Arranged(docIds, n, draws), chosen, n)
  {
    hide Distinct, DrawnThen, Arranged, DrawnBehind;
    if n == 0 {
      draws := i => 0;
      NothingDrawn(docIds, chosen, draws);
    } else {
      var before := EveryArrangement(docIds, chosen, n - 1);
      var docs := Arranged(docIds, n - 1, before);
      ArrangedMembers(docIds, n - 1, before);
      assert chosen[n - 1] in docs;
      var r :| 0 <= r < |docs| && docs[r] == chosen[n - 1];
      DrawNext(docs, chosen, n - 1, r);
      OneMoreDraw(docIds, n - 1, before, r);
      draws := DrawnThen(before, n - 1, r);
    }
  }

  /** Every ordered choice of distinct documents is drawn as the seeds by some generator. */
  lemma EverySelection(docIds: seq<nat>, chosen: seq<nat>) returns (draws: nat -> nat)
    requires Distinct(chosen) && |chosen| <= |docIds|
    requires forall c :: 0 <= c < |chosen| ==> chosen[c] in docIds
    ensures |Seeds(docIds, |chosen|, draws)| == |chosen|
    ensures forall c :: 0 <= c < |chosen| ==> Seeds(docIds, |chosen|, draws)[c] == [chosen[c]]
  {
    hide Arranged;
    draws := EveryArrangement(docIds, chosen, |chosen|);
  }

  // ---------------------------------------------------------------- what an assignment is

  /** The first member of each cluster: its centroid. */
  function Heads(clusters: seq<seq<nat>>): (heads: seq<nat>)
    requires forall c :: 0 <= c < |clusters| ==> clusters[c] != []
    ensures |heads| == |clusters| && forall c :: 0 <= c < |heads| ==> heads[c] == clusters[c][0]
  {
    seq(|clusters|, c requires 0 <= c < |clusters| => clusters[c][0])
  }

  ghost predicate InRange(docs: seq<nat>, n: nat) {
    forall i :: 0 <= i < |docs| ==> docs[i] < n
  }

  /** The rows of the centroids. */
  function RowsOf(rows: seq<Row>, docs: seq<nat>): (r: seq<Row>)
    requires InRange(docs, |rows|)
    ensures |r| == |docs| && forall c :: 0 <= c < |docs| ==> r[c] == rows[docs[c]]
  {
    seq(|docs|, c requires 0 <= c < |docs| => rows[docs[c]])
  }

  /** Cluster c's centroid is the most similar to the row, and no earlier one is as similar. */
  ghost predicate Nearest(centroids: seq<Row>, row: Row, c: nat) {
    && c < |centroids|
    && (forall b :: 0 <= b < |centroids| ==> Dot(centroids[b], row) <= Dot(centroids[c], row))
    && (forall b :: 0 <= b < c ==> Dot(centroids[b], row) < Dot(centroids[c], row))
  }

  /** The documents that are no centroid and belong to cluster c, in input order. */
  ghost function AssignedTo(rows: seq<Row>, heads: seq<nat>, docs: seq<nat>, c: nat): seq<nat>
    requires InRange(heads, |rows|) && InRange(docs, |rows|)
  {
    if docs == [] then []
    else
      var init, d := docs[..|docs| - 1], docs[|docs| - 1];
      AssignedTo(rows, heads, init, c) + (if d !in heads && Nearest(RowsOf(rows, heads), rows[d], c) then [d] else [])
  }

  /** The documents that are no centroid, in input order. */
  function Others(heads: seq<nat>, docs: seq<nat>): seq<nat> {
    if docs == [] then []
    else Others(heads, docs[..|docs| - 1]) + (if docs[|docs| - 1] !in heads then [docs[|docs| - 1]] else [])
  }

  /** Every cluster grows by its own documents. */
  ghost predicate Grown(clusters: seq<seq<nat>>, seeds: seq<seq<nat>>, rows: seq<Row>, heads: seq<nat>, docs: seq<nat>)
    requires InRange(heads, |rows|) && InRange(docs, |rows|)
  {
    && |clusters| == |seeds|
    && (forall c :: 0 <= c < |clusters| ==> clusters[c] == seeds[c] + AssignedTo(rows, heads, docs, c))
  }

  /** Nothing is lost or doubled on the way. */
  ghost predicate Conserved(clusters: seq<seq<nat>>, seeds: seq<seq<nat>>, heads: seq<nat>, docs: seq<nat>) {
    multiset(Flatten(clusters)) == multiset(Flatten(seeds)) + multiset(Others(heads, docs))
  }

  ghost predicate IsAssignment(clusters: seq<seq<nat>>, seeds: seq<seq<nat>>, rows: seq<Row>, heads: seq<nat>, docs: seq<nat>)
    requires InRange(heads, |rows|) && InRange(docs, |rows|)
  {
    Grown(clusters, seeds, rows, heads, docs) && Conserved(clusters, seeds, heads, docs)
  }

  lemma NearestUnique(centroids: seq<Row>, row: Row, a: nat, b: nat)
    requires Nearest(centroids, row, a) && Nearest(centroids, row, b)
    ensures a == b
  {
    assert Dot(centroids[a], row) == Dot(centroids[b], row);
  }

  lemma {:induction false} FlattenGrows(groups: seq<seq<nat>>, c: nat, d: nat)
    requires c < |groups|
    ensures multiset(Flatten(groups[c := groups[c] + [d]])) == multiset(Flatten(groups)) + multiset{d}
  {
    var grown := groups[c := groups[c] + [d]];
    var init := groups[..|groups| - 1];
    if c == |groups| - 1 {
      assert grown[..|groups| - 1] == init;
      assert Flatten(grown) == Flatten(groups) + [d];
    } else {
      FlattenGrows(init, c, d);
      assert grown[..|groups| - 1] == init[c := init[c] + [d]];
    }
  }

  lemma {:induction false} FlattenSingles(groups: seq<seq<nat>>)
    requires forall c :: 0 <= c < |groups| ==> |groups[c]| == 1
    ensures Flatten(groups) == Heads(groups)
  {
    if groups != [] {
      var init := groups[..|groups| - 1];
      FlattenSingles(init);
      assert groups[|groups| - 1] == [groups[|groups| - 1][0]];
      assert Heads(groups) == Heads(init) + [groups[|groups| - 1][0]];
    }
  }

  lemma AssignStep(clusters: seq<seq<nat>>, seeds: seq<seq<nat>>, rows: seq<Row>, heads: seq<nat>, docs: seq<nat>,
                   i: nat, best: nat)
    requires InRange(heads, |rows|) && InRange(docs, |rows|) && i < |docs| && |heads| == |seeds|
    requires IsAssignment(clusters, seeds, rows, heads, docs[..i])
    requires docs[i] !in heads && best < |heads| && Nearest(RowsOf(rows, heads), rows[docs[i]], best)
    ensures IsAssignment(clusters[best := clusters[best] + [docs[i]]], seeds, rows, heads, docs[..i + 1])
  {
    hide Nearest, Flatten, AssignedTo, Others;
    GrownStep(clusters, seeds, rows, heads, docs, i, best);
    FlattenGrows(clusters, best, docs[i]);
    OthersStep(heads, docs, i);
  }

  lemma GrownStep(clusters: seq<seq<nat>>, seeds: seq<seq<nat>>, rows: seq<Row>, heads: seq<nat>, docs: seq<nat>,
                  i: nat, best: nat)
    requires InRange(heads, |rows|) && InRange(docs, |rows|) && i < |docs| && |heads| == |seeds|
    requires Grown(clusters, seeds, rows, heads, docs[..i])
    requires docs[i] !in heads && best < |heads| && Nearest(RowsOf(rows, heads), rows[docs[i]], best)
    ensures Grown(clusters[best := clusters[best] + [docs[i]]], seeds, rows, heads, docs[..i + 1])
  {
    hide Nearest, AssignedTo;
    var grown := clusters[best := clusters[best] + [docs[i]]];
    forall c | 0 <= c < |clusters|
      ensures grown[c] == seeds[c] + AssignedTo(rows, heads, docs[..i + 1], c)
    {
      AssignedStep(rows, heads, docs, i, c);
      if Nearest(RowsOf(rows, heads), rows[docs[i]], c) {
        NearestUnique(RowsOf(rows, heads), rows[docs[i]], c, best);
      }
    }
  }

  lemma AssignedStep(rows: seq<Row>, heads: seq<nat>, docs: seq<nat>, i: nat, c: nat)
    requires InRange(heads, |rows|) && InRange(docs, |rows|) && i < |docs|
    ensures AssignedTo(rows, heads, docs[..i + 1], c)
            == AssignedTo(rows, heads, docs[..i], c)
               + (if docs[i] !in heads && Nearest(RowsOf(rows, heads), rows[docs[i]], c) then [docs[i]] else [])
  {
    hide Nearest;
    assert docs[..i + 1][..i] == docs[..i];
  }

  lemma OthersStep(heads: seq<nat>, docs: seq<nat>, i: nat)
    requires i < |docs|
    ensures Others(heads, docs[..i + 1]) == Others(heads, docs[..i]) + (if docs[i] !in heads then [docs[i]] else [])
  {
    assert docs[..i + 1][..i] == docs[..i];
  }

  lemma SkipStep(clusters: seq<seq<nat>>, seeds: seq<seq<nat>>, rows: seq<Row>, heads: seq<nat>, docs: seq<nat>, i: nat)
    requires InRange(heads, |rows|) && InRange(docs, |rows|) && i < |docs|
    requires IsAssignment(clusters, seeds, rows, heads, docs[..i])
    requires docs[i] in heads
    ensures IsAssignment(clusters, seeds, rows, heads, docs[..i + 1])
  {
    hide Nearest, Flatten, AssignedTo, Others;
    OthersStep(heads, docs, i);
    forall c: nat
      ensures AssignedTo(rows, heads, docs[..i + 1], c) == AssignedTo(rows, heads, docs[..i], c)
    {
      AssignedStep(rows, heads, docs, i, c);
    }
  }

  /** Centroids and the rest make up the documents. */
  lemma {:induction false} HeadsAndOthers(heads: seq<nat>, docs: seq<nat>)
    requires Distinct(heads) && Distinct(docs) && forall c :: 0 <= c < |heads| ==> heads[c] in docs
    ensures multiset(heads) + multiset(Others(heads, docs)) == multiset(docs)
  {
    forall d
      ensures (multiset(heads) + multiset(Others(heads, docs)))[d] == multiset(docs)[d]
    {
      CountDistinct(heads, d);
      CountDistinct(docs, d);
      CountOthers(heads, docs, d);
    }
  }

  lemma {:induction false} CountDistinct(ids: seq<nat>, d: nat)
    requires Distinct(ids)
    ensures multiset(ids)[d] == if d in ids then 1 else 0
  {
    if ids != [] {
      var init, last := ids[..|ids| - 1], ids[|ids| - 1];
      assert ids == init + [last];
      CountDistinct(init, d);
    }
  }

  lemma {:induction false} CountOthers(heads: seq<nat>, docs: seq<nat>, d: nat)
    ensures multiset(Others(heads, docs))[d] == if d in heads then 0 else multiset(docs)[d]
  {
    if docs != [] {
      var init, last := docs[..|docs| - 1], docs[|docs| - 1];
      assert docs == init + [last];
      CountOthers(heads, init, d);
    }
  }

  // ---------------------------------------------------------------- the transposed centroids

  /** The term-major index of the centroids' rows. */
  datatype CentroidIndex = CentroidIndex(termPtr: seq<nat>, postings: seq<Posting>, nCols: nat)

  ghost predicate Indexes(index: CentroidIndex, centroids: seq<Row>) {
    && IsTranspose(index.termPtr, index.postings, Identity(index.nCols), centroids)
    && forall c :: 0 <= c < |centroids| ==> TermsBelow(centroids[c], index.nCols)
  }

  ghost predicate AllBelow(rows: seq<Row>, n: nat) {
    forall c :: 0 <= c < |rows| ==> TermsBelow(rows[c], n)
  }

  /** Columns up to the largest term the centroids themselves carry, and no more. */
  method BuildCentroidIndex(centroids: seq<Row>) returns (index: CentroidIndex)
    ensures Indexes(index, centroids)
    ensures AllBelow(centroids, index.nCols) && forall n: nat :: AllBelow(centroids, n) ==> index.nCols <= n
  {
    var nCols: nat := 0;
    for c := 0 to |centroids|
      invariant forall b :: 0 <= b < c ==> TermsBelow(centroids[b], nCols)
      invariant forall n: nat :: AllBelow(centroids, n) ==> nCols <= n
    {
      for j := 0 to |centroids[c]|
        invariant forall b :: 0 <= b < c ==> TermsBelow(centroids[b], nCols)
        invariant forall n: nat :: AllBelow(centroids, n) ==> nCols <= n
        invariant forall i :: 0 <= i < j ==> centroids[c][i].term < nCols
      {
        if centroids[c][j].term >= nCols {
          nCols := centroids[c][j].term + 1;
        }
      }
    }
    var ptr, postings := Transpose(centroids, nCols, t => t, Identity(nCols));
    index := CentroidIndex(ptr, postings, nCols);
  }

  /** A document's similarity to every centroid, touching only shared terms. */
  method Similarities(index: CentroidIndex, row: Row, similarities: array<real>, ghost centroids: seq<Row>)
    requires Indexes(index, centroids) && similarities.Length == |centroids|
    modifies similarities
    ensures forall c :: 0 <= c < |centroids| ==> similarities[c] == Dot(centroids[c], row)
  {
    for c := 0 to similarities.Length
      invariant forall b :: 0 <= b < c ==> similarities[b] == 0.0
    {
      similarities[c] := 0.0;
    }
    for j := 0 to |row|
      invariant forall c :: 0 <= c < |centroids| ==> similarities[c] == Dot(centroids[c], row[..j])
    {
      var e := row[j];
      assert row[..j + 1][..j] == row[..j];
      if e.term < index.nCols {
        AddColumn(index.termPtr, index.postings, e.term, e.value, similarities, Identity(index.nCols), centroids);
      } else {
        forall c | 0 <= c < |centroids|
          ensures Weighted(e.value, centroids[c], e.term) == 0.0
        {
          assert !Carries(centroids[c], e.term);
          WeightedAbsent(e.value, centroids[c], e.term);
        }
      }
    }
    assert row[..|row|] == row;
  }

  /** Ties go to the lowest index. */
  method ArgMax(similarities: array<real>, ghost centroids: seq<Row>, ghost row: Row) returns (best: nat)
    requires similarities.Length == |centroids| > 0
    requires forall c :: 0 <= c < |centroids| ==> similarities[c] == Dot(centroids[c], row)
    ensures best < |centroids| && Nearest(centroids, row, best)
  {
    best := 0;
    var top := similarities[0];
    for c := 1 to similarities.Length
      invariant best < c && top == similarities[best]
      invariant forall b :: 0 <= b < c ==> similarities[b] <= top
      invariant forall b :: 0 <= b < best ==> similarities[b] < top
    {
      if similarities[c] > top {
        top, best := similarities[c], c;
      }
    }
  }

  /** Appends every document that is no centroid to the cluster whose centroid it is nearest to. */
  method MapDocsToClusters(csr: Csr, docs: seq<nat>, seeds: seq<seq<nat>>) returns (result: Result<seq<seq<nat>>>)
    requires csr.Valid() && InRange(docs, csr.Count())
    requires forall c :: 0 <= c < |seeds| && seeds[c] != [] ==> seeds[c][0] < csr.Count()
    ensures result.Failed? <==> seeds != [] && docs != [] && exists c :: 0 <= c < |seeds| && seeds[c] == []
    ensures result.Ok? && (seeds == [] || docs == []) ==> result.value == seeds
    ensures result.Ok? && seeds != [] && docs != [] ==>
              (forall c :: 0 <= c < |seeds| ==> seeds[c] != [])
              && InRange(Heads(seeds), csr.Count()) && IsAssignment(result.value, seeds, csr.Rows(), Heads(seeds), docs)
  {
    if seeds == [] || docs == [] {
      return Ok(seeds);
    }
    for c := 0 to |seeds|
      invariant forall b :: 0 <= b < c ==> seeds[b] != []
    {
      if seeds[c] == [] {
        return Failed("a cluster has no centroid");
      }
    }
    var heads, rows := Heads(seeds), csr.Rows();
    var centroids := RowsOf(rows, heads);
    var index := BuildCentroidIndex(centroids);
    var clusters := Assign(rows, docs, seeds, heads, index);
    return Ok(clusters);
  }

  method Assign(rows: seq<Row>, docs: seq<nat>, seeds: seq<seq<nat>>, heads: seq<nat>, index: CentroidIndex)
    returns (clusters: seq<seq<nat>>)
    requires InRange(heads, |rows|) && InRange(docs, |rows|) && |seeds| == |heads| > 0
    requires Indexes(index, RowsOf(rows, heads))
    ensures IsAssignment(clusters, seeds, rows, heads, docs)
  {
    clusters := seeds;
    var similarities := new real[|heads|](_ => 0.0);
    ghost var centroids := RowsOf(rows, heads);
    hide Nearest, Indexes;
    for i := 0 to |docs|
      invariant IsAssignment(clusters, seeds, rows, heads, docs[..i])
    {
      var d := docs[i];
      if d in heads {
        SkipStep(clusters, seeds, rows, heads, docs, i);
      } else {
        Similarities(index, rows[d], similarities, centroids);
        var best := ArgMax(similarities, centroids, rows[d]);
        AssignStep(clusters, seeds, rows, heads, docs, i, best);
        clusters := clusters[best := clusters[best] + [d]];
      }
    }
    assert docs[..|docs|] == docs;
  }

  // ---------------------------------------------------------------- training

  /**
   * A clustering of the documents: non-empty clusters headed by distinct centroids, which partition
   * the documents, every other document with its nearest centroid in input order.
   */
  ghost predicate IsClustering(clusters: seq<seq<nat>>, rows: seq<Row>, docs: seq<nat>) {
    && InRange(docs, |rows|)
    && (forall c :: 0 <= c < |clusters| ==> clusters[c] != [] && clusters[c][0] in docs)
    && Distinct(Heads(clusters))
    && multiset(Flatten(clusters)) == multiset(docs)
    && InRange(Heads(clusters), |rows|)
    && (forall c :: 0 <= c < |clusters| ==> clusters[c] == [clusters[c][0]] + AssignedTo(rows, Heads(clusters), docs, c))
  }

  /** The clusters training gives, as a function of the documents and the draws. */
  ghost function Trained(rows: seq<Row>, docs: seq<nat>, nClusters: nat, draws: nat -> nat): (clusters: seq<seq<nat>>)
    requires InRange(docs, |rows|)
  {
    if docs == [] then []
    else
      var seeds := Seeds(docs, BoundaryCheck(|docs|, nClusters), draws);
      SeedsDrawn(docs, BoundaryCheck(|docs|, nClusters), draws);
      seq(|seeds|, c requires 0 <= c < |seeds| => seeds[c] + AssignedTo(rows, Heads(seeds), docs, c))
  }

  /** RandomKMeans::train over a list's documents. */
  method Train(csr: Csr, docIds: seq<nat>, nClusters: nat, draws: nat -> nat) returns (clusters: seq<seq<nat>>)
    requires csr.Valid() && InRange(docIds, csr.Count())
    ensures clusters == Trained(csr.Rows(), docIds, nClusters, draws)
    ensures IsClusterCount(|clusters|, |docIds|, nClusters)
    ensures docIds != [] && Distinct(docIds) ==> IsClustering(clusters, csr.Rows(), docIds)
  {
    hide Conserved, IsClustering, Nearest, AssignedTo, BoundaryCheck, Seeds, Csr.Valid, Csr.Rows;
    if docIds == [] {
      return [];
    }
    var n := BoundaryCheck(|docIds|, nClusters);
    var seeds := RandomSelectInitialCentroids(docIds, n, draws);
    var result := MapDocsToClusters(csr, docIds, seeds);
    clusters := result.value;
    if Distinct(docIds) {
      AssignmentClusters(clusters, seeds, csr.Rows(), docIds);
    }
    assert clusters == Trained(csr.Rows(), docIds, nClusters, draws);
  }

  lemma {:induction false} AssignedMembers(rows: seq<Row>, heads: seq<nat>, docs: seq<nat>, c: nat)
    requires InRange(heads, |rows|) && InRange(docs, |rows|)
    ensures InRange(AssignedTo(rows, heads, docs, c), |rows|)
  {
    if docs != [] {
      AssignedMembers(rows, heads, docs[..|docs| - 1], c);
    }
  }

  /** Training brings in no document of its own. */
  lemma TrainedInRange(rows: seq<Row>, docs: seq<nat>, nClusters: nat, draws: nat -> nat)
    requires InRange(docs, |rows|)
    ensures var clusters := Trained(rows, docs, nClusters, draws);
            forall c :: 0 <= c < |clusters| ==> InRange(clusters[c], |rows|)
  {
    hide AssignedTo, Seeds, BoundaryCheck;
    if docs != [] {
      var seeds := Seeds(docs, BoundaryCheck(|docs|, nClusters), draws);
      SeedsDrawn(docs, BoundaryCheck(|docs|, nClusters), draws);
      forall c | 0 <= c < |seeds|
        ensures InRange(seeds[c] + AssignedTo(rows, Heads(seeds), docs, c), |rows|)
      {
        AssignedMembers(rows, Heads(seeds), docs, c);
      }
    }
  }

  lemma AssignmentClusters(clusters: seq<seq<nat>>, seeds: seq<seq<nat>>, rows: seq<Row>, docs: seq<nat>)
    requires InRange(docs, |rows|) && Distinct(docs)
    requires forall c :: 0 <= c < |seeds| ==> |seeds[c]| == 1 && seeds[c][0] in docs
    requires Distinct(Heads(seeds)) && InRange(Heads(seeds), |rows|)
    requires IsAssignment(clusters, seeds, rows, Heads(seeds), docs)
    ensures IsClustering(clusters, rows, docs)
  {
    FlattenSingles(seeds);
    HeadsAndOthers(Heads(seeds), docs);
    forall c | 0 <= c < |clusters|
      ensures clusters[c] != [] && clusters[c][0] == seeds[c][0] && [clusters[c][0]] == seeds[c]
    {
      assert clusters[c] == seeds[c] + AssignedTo(rows, Heads(seeds), docs, c);
    }
    assert Heads(clusters) == Heads(seeds);
  }
}
