/**
 * Building the clustered lists one term window at a time, so that only a window's postings are held
 * at once, and the window count cannot be seen in what is built.
 */
module BatchedBuild {
  import opened SparseDot
  import opened SparseVectors
  import opened TopK
  import opened TermScan
  import opened InvertedLists
  import opened TermWindows

  // ---------------------------------------------------------------- resolved parameters

  const DEFAULT: int := -1
  const SIZE_T_RANGE: nat := 0x1_0000_0000_0000_0000

  /** Conversion toward zero. */
  function Truncated(x: real): int {
    if x >= 0.0 then x.Floor else -((-x).Floor)
  }

  /** How many postings of a list are kept: by default a share of the corpus, at least 160. */
  function CalculateLambda(lam: int, nVectors: nat): (resolved: int)
    ensures lam != -1 ==> resolved == lam
    ensures lam == -1 && nVectors <= 320000 ==> resolved == 160
    ensures lam == -1 && nVectors > 320000 ==> 0.0005 * nVectors as real - 1.0 < resolved as real <= 0.0005 * nVectors as real
  {
    if lam == DEFAULT then
      var share := Truncated(0.0005 * nVectors as real);
      if share > 160 then share else 160
    else lam
  }

  /** How many clusters a list is cut into: by default a tenth of what is kept. */
  function CalculateBeta(beta: int, lam: int): (resolved: int)
    ensures beta != -1 ==> resolved == beta
    ensures beta == -1 && lam >= 0 ==> 10 * resolved <= lam < 10 * (resolved + 1)
    ensures beta == -1 && lam < 0 ==> 10 * (resolved - 1) < lam <= 10 * resolved
  {
    if beta == DEFAULT then Truncated(lam as real * 0.1) else beta
  }

  /** A signed value read as size_t. */
  function AsSize(x: int): (size: nat)
    requires x + SIZE_T_RANGE >= 0
    ensures x >= 0 ==> size == x
    ensures x < 0 ==> size == x + 0x1_0000_0000_0000_0000
  {
    if x >= 0 then x else x + SIZE_T_RANGE
  }

  // ---------------------------------------------------------------- counting

  /** How many of the entries carry term t. */
  function CountOf(entries: Row, t: nat): nat {
    if entries == [] then 0
    else CountOf(entries[..|entries| - 1], t) + (if entries[|entries| - 1].term == t then 1 else 0)
  }

  lemma {:induction false} CountAppend(a: Row, b: Row, t: nat)
    ensures CountOf(a + b, t) == CountOf(a, t) + CountOf(b, t)
  {
    if b == [] {
      assert a + b == a;
    } else {
      assert (a + b)[..|a + b| - 1] == a + b[..|b| - 1];
      CountAppend(a, b[..|b| - 1], t);
    }
  }

  lemma {:induction false} CountRow(row: Row, owner: nat, t: nat)
    ensures CountOf(row, t) == |RowPostings(row, owner, t)|
  {
    if row != [] {
      CountRow(row[..|row| - 1], owner, t);
    }
  }

  /** Counting over the flat entries counts the term's postings. */
  lemma {:induction false} CountRows(csr: Csr, n: nat, t: nat)
    requires csr.Valid() && csr.indptr != [] && n <= csr.Count()
    ensures CountOf(csr.entries[..csr.indptr[n]], t) == |PostingsOf(csr.Rows()[..n], t)|
  {
    if n > 0 {
      CountRows(csr, n - 1, t);
      assert csr.Rows()[..n][..n - 1] == csr.Rows()[..n - 1];
      assert csr.entries[..csr.indptr[n]] == csr.entries[..csr.indptr[n - 1]] + csr.Row(n - 1);
      CountAppend(csr.entries[..csr.indptr[n - 1]], csr.Row(n - 1), t);
      CountRow(csr.Row(n - 1), n - 1, t);
    }
  }

  /** Every entry of the corpus names a term below the dimension. */
  ghost predicate InDimension(csr: Csr, dim: nat)
    requires csr.Valid()
  {
    TermsBelow(csr.entries, dim)
  }

  lemma EntriesBelow(csr: Csr, dim: nat, d: nat)
    requires csr.Valid() && InDimension(csr, dim) && d < csr.Count()
    ensures TermsBelow(csr.Row(d), dim)
  {
  }

  /** Postings per term over the flat entries; fails on a term outside the dimension. */
  method CountPostingsPerTerm(csr: Csr, dim: nat) returns (counts: Result<seq<nat>>)
    requires csr.Valid() && csr.indptr != []
    ensures counts.Ok? <==> InDimension(csr, dim)
    ensures counts.Ok? ==> |counts.value| == dim
    ensures counts.Ok? ==> forall t :: 0 <= t < dim ==> counts.value[t] == |PostingsOf(csr.Rows(), t)|
  {
    var c := seq(dim, _ => 0);
    var nnz := csr.indptr[csr.Count()];
    for j := 0 to nnz
      invariant |c| == dim && forall t :: 0 <= t < dim ==> c[t] == CountOf(csr.entries[..j], t)
      invariant TermsBelow(csr.entries[..j], dim)
    {
      var term := csr.entries[j].term;
      if term >= dim {
        return Failed("corpus has a term outside the dimension");
      }
      assert csr.entries[..j + 1][..j] == csr.entries[..j];
      c := c[term := c[term] + 1];
    }
    assert csr.entries[..nnz] == csr.entries;
    assert csr.Rows()[..csr.Count()] == csr.Rows();
    forall t | 0 <= t < dim
      ensures c[t] == |PostingsOf(csr.Rows(), t)|
    {
      CountRows(csr, csr.Count(), t);
    }
    return Ok(c);
  }

  // ---------------------------------------------------------------- one window's lists

  /** The global terms of a window, one column each. */
  function WindowTerms(window: Window): (columns: seq<nat>)
    requires window.begin <= window.end
    ensures |columns| == window.end - window.begin
    ensures forall l :: 0 <= l < |columns| ==> columns[l] == window.begin + l
    ensures ValidColumns(columns)
  {
    seq(window.end - window.begin, l => window.begin + l)
  }

  /** Each list's first `fill` slots hold what was added to it. */
  ghost predicate FilledTo(slots: seq<seq<Posting>>, fill: seq<nat>, staged: seq<seq<Posting>>) {
    && |slots| == |fill| == |staged|
    && forall l :: 0 <= l < |slots| ==> fill[l] == |staged[l]| <= |slots[l]| && slots[l][..fill[l]] == staged[l]
  }

  /** The posting lists of one window, every slot sized by the counting pass. */
  class WindowLists {
    var slots: seq<seq<Posting>>
    var fill: seq<nat>
    ghost var staged: seq<seq<Posting>>

    ghost predicate Valid()
      reads this
    {
      FilledTo(slots, fill, staged)
    }

    constructor (counts: seq<nat>, window: Window)
      requires window.begin <= window.end <= |counts|
      ensures Valid() && |slots| == window.end - window.begin
      ensures forall l :: 0 <= l < |slots| ==> |slots[l]| == counts[window.begin + l] && staged[l] == []
    {
      var n: nat := window.end - window.begin;
      var sized: seq<seq<Posting>> := [];
      for l := 0 to n
        invariant |sized| == l
        invariant forall m :: 0 <= m < l ==> |sized[m]| == counts[window.begin + m]
      {
        sized := sized + [seq(counts[window.begin + l], _ => Posting(0, 0.0))];
      }
      slots := sized;
      fill := seq(n, _ => 0);
      staged := seq(n, _ => []);
    }

    /** Puts a posting into its list's next slot; fails when the counting pass left no slot for it. */
    method Add(local: nat, doc: nat, value: real) returns (ok: bool)
      requires Valid() && local < |slots|
      modifies this
      ensures ok <==> |old(staged[local])| < |old(slots[local])|
      ensures ok ==> Valid() && staged == old(staged)[local := old(staged[local]) + [Posting(doc, value)]]
      ensures |slots| == |old(slots)| && forall l :: 0 <= l < |slots| ==> |slots[l]| == |old(slots[l])|
    {
      var slot := fill[local];
      fill := fill[local := slot + 1];
      if slot >= |slots[local]| {
        return false;
      }
      ghost var was := slots[local];
      slots := slots[local := slots[local][slot := Posting(doc, value)]];
      staged := staged[local := staged[local] + [Posting(doc, value)]];
      assert slots[local][..slot + 1] == was[..slot] + [Posting(doc, value)];
      return true;
    }

    /** Hands the buffers over as the lists. */
    method Seal() returns (lists: seq<seq<Posting>>)
      modifies this
      ensures lists == old(slots)
    {
      lists := slots;
      slots, fill, staged := [], [], [];
    }
  }

  lemma OutsideWindow(window: Window, t: nat)
    requires window.begin <= window.end && (t < window.begin || t >= window.end)
    ensures t !in WindowTerms(window)
  {
  }

  /** The counting pass sized every slot of the window. */
  ghost predicate Sized(lists: WindowLists, window: Window, rows: seq<Row>)
    requires window.begin <= window.end
    reads lists
  {
    && lists.Valid() && |lists.slots| == window.end - window.begin
    && forall l :: 0 <= l < |lists.slots| ==> |lists.slots[l]| == |PostingsOf(rows, WindowTerms(window)[l])|
  }

  /** One corpus pass, documents ascending: every slot of the window is filled, none overflows. */
  method FillFromCorpus(csr: Csr, window: Window, lists: WindowLists) returns (ok: bool)
    requires csr.Valid() && window.begin <= window.end && Sized(lists, window, csr.Rows())
    requires forall l :: 0 <= l < |lists.staged| ==> lists.staged[l] == []
    modifies lists
    ensures ok && Sized(lists, window, csr.Rows())
    ensures forall l :: 0 <= l < |lists.slots| ==> lists.slots[l] == PostingsOf(csr.Rows(), window.begin + l)
  {
    hide StagedRows, StagedEntries, PostingsOf, Scanned, ValidColumns;
    ghost var rows, columns := csr.Rows(), WindowTerms(window);
    ScanStart(lists.staged, columns, rows);
    for doc := 0 to csr.Count()
      invariant Sized(lists, window, rows) && StagedRows(lists.staged, columns, rows, doc)
    {
      var row := csr.Row(doc);
      RowStart(lists.staged, columns, rows, doc);
      for j := 0 to |row|
        invariant Sized(lists, window, rows) && StagedEntries(lists.staged, columns, rows, doc, j)
      {
        var term := row[j].term;
        if term < window.begin || term >= window.end {
          OutsideWindow(window, term);
          RowSkip(lists.staged, columns, rows, doc, j);
        } else {
          AddFits(lists.staged, columns, rows, doc, j, term - window.begin);
          RowEntry(lists.staged, columns, rows, doc, j, term - window.begin);
          var added := lists.Add(term - window.begin, doc, row[j].value);
          if !added {
            return false;
          }
        }
      }
      RowEnd(lists.staged, columns, rows, doc);
    }
    ScanDone(lists.staged, columns, rows);
    FullSlots(lists.slots, lists.fill, lists.staged);
    return true;
  }

  /** The next entry of a column still has a slot. */
  lemma AddFits(staged: seq<seq<Posting>>, columns: seq<nat>, rows: seq<Row>, i: nat, j: nat, l: nat)
    requires i < |rows| && j < |rows[i]| && StagedEntries(staged, columns, rows, i, j)
    requires l < |columns| && columns[l] == rows[i][j].term
    ensures l < |staged| && |staged[l]| < |PostingsOf(rows, columns[l])|
  {
    ScanEntry(rows, i, j, columns[l]);
    ScannedFits(rows, i, j + 1, columns[l]);
  }

  lemma FullSlots(slots: seq<seq<Posting>>, fill: seq<nat>, staged: seq<seq<Posting>>)
    requires FilledTo(slots, fill, staged)
    requires forall l :: 0 <= l < |slots| ==> |staged[l]| == |slots[l]|
    ensures slots == staged
  {
    forall l | 0 <= l < |slots|
      ensures slots[l] == staged[l]
    {
      assert slots[l][..fill[l]] == slots[l];
    }
  }

  /** A window's lists: exactly the corpus's posting lists of its terms. */
  method WindowPostings(csr: Csr, counts: seq<nat>, window: Window) returns (result: Result<seq<seq<Posting>>>)
    requires csr.Valid() && window.begin <= window.end <= |counts|
    requires forall t :: 0 <= t < |counts| ==> counts[t] == |PostingsOf(csr.Rows(), t)|
    ensures result.Ok? && |result.value| == window.end - window.begin
    ensures forall l :: 0 <= l < |result.value| ==> result.value[l] == PostingsOf(csr.Rows(), window.begin + l)
  {
    hide PostingsOf;
    var lists := new WindowLists(counts, window);
    var ok := FillFromCorpus(csr, window, lists);
    if !ok {
      return Failed("corpus changed during the build");
    }
    var sealed := lists.Seal();
    return Ok(sealed);
  }

  // ---------------------------------------------------------------- the windowed build

  /** Clustering is a function of a list's postings and its global term, which seeds it. */
  type Clustering<!T> = (seq<Posting>, nat) -> T

  /** What clustering every term's posting list gives, windows or not. */
  function Clustered<T>(rows: seq<Row>, begin: nat, end: nat, cluster: Clustering<T>): (lists: seq<T>)
    requires begin <= end
    ensures |lists| == end - begin
    ensures forall l :: 0 <= l < |lists| ==> lists[l] == cluster(PostingsOf(rows, begin + l), begin + l)
  {
    seq(end - begin, l requires 0 <= l < end - begin => cluster(PostingsOf(rows, begin + l), begin + l))
  }

  /** Clusters a window's lists, each with its global term. */
  method ClusterWindow<T>(lists: seq<seq<Posting>>, window: Window, cluster: Clustering<T>, ghost rows: seq<Row>) returns (clustered: seq<T>)
    requires window.begin <= window.end && |lists| == window.end - window.begin
    requires forall l :: 0 <= l < |lists| ==> lists[l] == PostingsOf(rows, window.begin + l)
    ensures clustered == Clustered(rows, window.begin, window.end, cluster)
  {
    clustered := [];
    for local := 0 to |lists|
      invariant |clustered| == local
      invariant forall l :: 0 <= l < local ==> clustered[l] == cluster(PostingsOf(rows, window.begin + l), window.begin + l)
    {
      clustered := clustered + [cluster(lists[local], window.begin + local)];
    }
  }

  /** One call of the sink: where the window starts, and its clustered lists. */
  datatype Emitted<T> = Emitted(termBegin: nat, clusters: seq<T>)

  ghost predicate EmitsWindows<T>(emitted: seq<Emitted<T>>, windows: seq<Window>, rows: seq<Row>, cluster: Clustering<T>) {
    |emitted| == |windows| && forall w :: 0 <= w < |windows| ==>
      windows[w].begin <= windows[w].end
      && emitted[w] == Emitted(windows[w].begin, Clustered(rows, windows[w].begin, windows[w].end, cluster))
  }

  /** The sequence of sink calls for a non-empty corpus: one per window, ascending. */
  method ForEachClusteredWindow<T>(csr: Csr, dim: nat, lam: nat, batchSize: nat, cluster: Clustering<T>)
    returns (result: Result<seq<Emitted<T>>>, ghost windows: seq<Window>)
    requires csr.Valid() && batchSize >= 1
    ensures csr.Count() == 0 ==> result == Ok([])
    ensures csr.Count() > 0 ==> (result.Ok? <==> InDimension(csr, dim))
    ensures csr.Count() > 0 && result.Ok? ==>
              |windows| == Min(batchSize, dim) && Tiles(windows, dim)
              && EmitsWindows(result.value, windows, csr.Rows(), cluster)
  {
    hide PostingsOf, Tiles, Balanced, SharesEvenly, CutsGreedily, InDimension, Clustered;
    windows := [];
    if csr.Count() == 0 {
      return Ok([]), windows;
    }
    var batches := Min(batchSize, dim);
    var counts := CountPostingsPerTerm(csr, dim);
    if counts.Failed? {
      return Failed(counts.reason), windows;
    }
    var cut := MakeWindows(counts.value, lam, batches);
    windows := cut;
    var emitted: seq<Emitted<T>> := [];
    for w := 0 to |cut|
      invariant EmitsWindows(emitted, cut[..w], csr.Rows(), cluster)
    {
      var window := cut[w];
      TilesInside(cut, dim, w);
      var lists := WindowPostings(csr, counts.value, window);
      if lists.Failed? {
        return Failed("corpus changed during the build"), windows;
      }
      var clustered := ClusterWindow(lists.value, window, cluster, csr.Rows());
      emitted := emitted + [Emitted(window.begin, clustered)];
    }
    assert cut[..|cut|] == cut;
    return Ok(emitted), windows;
  }

  /** The sink that keeps every list in memory: each window is moved to its place. */
  method BuildInvertedListsClusters<T>(csr: Csr, dim: nat, lam: nat, batchSize: nat, cluster: Clustering<T>, none: T)
    returns (result: Result<seq<T>>)
    requires csr.Valid() && batchSize >= 1
    ensures csr.Count() == 0 ==> result == Ok(seq(dim, _ => none))
    ensures csr.Count() > 0 && InDimension(csr, dim) ==> result == Ok(Clustered(csr.Rows(), 0, dim, cluster))
    ensures csr.Count() > 0 && !InDimension(csr, dim) ==> result.Failed?
  {
    hide PostingsOf;
    var emitted, windows := ForEachClusteredWindow(csr, dim, lam, batchSize, cluster);
    if emitted.Failed? {
      return Failed(emitted.reason);
    }
    var clustered := seq(dim, _ => none);
    ghost var all := Clustered(csr.Rows(), 0, dim, cluster);
    ghost var done := 0;
    for w := 0 to |emitted.value|
      invariant |clustered| == dim && done <= dim
      invariant done == if w == 0 then 0 else windows[w - 1].end
      invariant clustered[..done] == all[..done]
      invariant w == 0 ==> clustered == seq(dim, _ => none)
    {
      var e := emitted.value[w];
      TilesInside(windows, dim, w);
      clustered := clustered[..e.termBegin] + e.clusters + clustered[e.termBegin + |e.clusters|..];
      assert all[done..windows[w].end] == e.clusters;
      assert all[..windows[w].end] == all[..done] + all[done..windows[w].end];
      done := windows[w].end;
    }
    if csr.Count() > 0 {
      assert all[..dim] == all && clustered[..dim] == clustered;
    }
    return Ok(clustered);
  }

  /** batchPath stands for whether a spill directory was given; without one there is one window. */
  function EffectiveBatchSize(batchSize: nat, batchPath: bool): (n: nat)
    ensures (!batchPath || batchSize <= 1 ==> n == 1) && (batchPath && batchSize >= 1 ==> n == batchSize)
  {
    if !batchPath then 1 else if batchSize < 1 then 1 else batchSize
  }
}
