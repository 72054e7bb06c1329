/** The build that streams its lists into a scratch file and maps them back. */
module SpilledLists {
  import opened SparseDot
  import opened SparseVectors
  import opened InvertedLists
  import opened TermWindows
  import opened BatchedBuild
  import opened Bytes
  import opened Streams
  import opened Serialization
  import opened StoredIndexes

  /** Every term's clusters can be written. */
  ghost predicate AllStorable(csr: Csr, dim: nat, cluster: Clustering<StoredClusters>)
    requires csr.Valid()
  {
    dim < SIZE_RANGE && forall t :: 0 <= t < dim ==> StorableClusters(Clustered(csr.Rows(), 0, dim, cluster)[t])
  }

  /**
   * The sink that streams: lists are appended in term order, and a gap or a repeat is an error. Over
   * a corpus with documents neither occurs, and the bytes are the section of a single pass.
   */
  method StreamClusteredLists(csr: Csr, dim: nat, lam: nat, batchSize: nat, cluster: Clustering<StoredClusters>, writer: IOWriter)
    returns (ok: bool)
    requires csr.Valid() && batchSize >= 1 && AllStorable(csr, dim, cluster)
    modifies writer
    ensures csr.Count() == 0 ==> (ok <==> dim == 0)
    ensures csr.Count() > 0 ==> (ok <==> InDimension(csr, dim))
    ensures csr.Count() > 0 && ok ==>
              writer.bytes == old(writer.bytes) + Encode(SectionFields(Clustered(csr.Rows(), 0, dim, cluster)), |old(writer.bytes)|)
  {
    hide Encode, FieldBytes, Joined, ClusterFields, Clustered, Tiles, InDimension, Csr.Valid, Csr.Rows, StorableClusters;
    ghost var rows := csr.Rows();
    ghost var all := Clustered(rows, 0, dim, cluster);
    ghost var was, records, header := writer.bytes, ClusterRecords(all), [Scalar(dim)];
    SectionHeader(was, dim, records, writer);
    writer.WriteScalar(dim);
    var emitted, windows := ForEachClusteredWindow(csr, dim, lam, batchSize, cluster);
    if emitted.Failed? {
      return false;
    }
    var nextTerm: nat := 0;
    for w := 0 to |emitted.value|
      invariant nextTerm <= dim && nextTerm == if w == 0 then 0 else windows[w - 1].end
      invariant writer.bytes == was + Encode(header + Joined(records[..nextTerm]), |was|)
    {
      var e := emitted.value[w];
      NextInside(windows, dim, w);
      EmittedParts(e.clusters, rows, windows[w], dim, cluster);
      if e.termBegin != nextTerm {
        return false;
      }
      WriteWindow(e.clusters, writer, was, header, records, nextTerm, all);
      nextTerm := e.termBegin + |e.clusters|;
    }
    LastEnd(windows, dim);
    if nextTerm != dim {
      return false;
    }
    assert records[..dim] == records;
    return true;
  }

  lemma SectionHeader(was: seq<byte>, dim: nat, records: seq<seq<Field>>, writer: IOWriter)
    requires writer.bytes == was
    ensures was + FieldBytes(Scalar(dim), |was|) == was + Encode([Scalar(dim)] + Joined(records[..0]), |was|)
  {
    hide FieldBytes, Joined;
    NoRecords([Scalar(dim)], records[..0]);
    assert [Scalar(dim)] == [] + [Scalar(dim)];
    EncodeSnoc([], Scalar(dim), |was|);
  }

  lemma NextInside(windows: seq<Window>, dim: nat, w: nat)
    requires Tiles(windows, dim) && w < |windows|
    ensures windows[w].begin == (if w == 0 then 0 else windows[w - 1].end)
    ensures windows[w].begin < windows[w].end <= dim
  {
    TilesInside(windows, dim, w);
  }

  lemma LastEnd(windows: seq<Window>, dim: nat)
    ensures Tiles(windows, dim) ==> dim == if windows == [] then 0 else windows[|windows| - 1].end
  {
  }

  /** A window's lists are the ones a single pass gives its terms. */
  lemma EmittedParts(lists: seq<StoredClusters>, rows: seq<Row>, window: Window, dim: nat, cluster: Clustering<StoredClusters>)
    requires window.begin <= window.end <= dim && lists == Clustered(rows, window.begin, window.end, cluster)
    ensures |lists| == window.end - window.begin
    ensures forall l :: 0 <= l < |lists| ==> lists[l] == Clustered(rows, 0, dim, cluster)[window.begin + l]
  {
    hide PostingsOf;
  }

  /** Appends a window's lists behind those of the windows before it. */
  method WriteWindow(lists: seq<StoredClusters>, writer: IOWriter, ghost was: seq<byte>, ghost header: seq<Field>,
                     ghost records: seq<seq<Field>>, ghost first: nat, ghost all: seq<StoredClusters>)
    requires records == ClusterRecords(all) && first + |lists| <= |all|
    requires forall l :: 0 <= l < |lists| ==> lists[l] == all[first + l]
    requires forall t :: 0 <= t < |all| ==> StorableClusters(all[t])
    requires writer.bytes == was + Encode(header + Joined(records[..first]), |was|)
    modifies writer
    ensures writer.bytes == was + Encode(header + Joined(records[..first + |lists|]), |was|)
  {
    hide Encode, Joined, ClusterFields, StorableClusters;
    for l := 0 to |lists|
      invariant writer.bytes == was + Encode(header + Joined(records[..first + l]), |was|)
    {
      HasWidth(all[first + l]);
      var _ := SerializeClusters(lists[l], false, writer);
      OneMoreRecord(was, header, records, first + l);
    }
  }

  lemma HasWidth(c: StoredClusters)
    requires StorableClusters(c)
    ensures c.elementSize > 0
  {
    LastFits(ClusterFields(c));
  }

  /**
   * Streams the lists into a scratch file and maps it: what comes back are the lists of a single
   * pass, but for the term pointer of a store without terms.
   */
  method SpillClusteredLists(csr: Csr, dim: nat, lam: nat, batchSize: nat, cluster: Clustering<StoredClusters>, address: nat)
    returns (result: Result<seq<StoredClusters>>)
    requires csr.Valid() && batchSize >= 1 && AllStorable(csr, dim, cluster) && address % 8 == 0
    ensures result.Ok? <==> csr.Count() > 0 && InDimension(csr, dim)
    ensures result.Ok? ==> result.value == KeptAll(Clustered(csr.Rows(), 0, dim, cluster))
  {
    hide Encode, SectionFields, Clustered, StorableClusters, DecodeSection, InDimension, Csr.Valid, Csr.Rows;
    if csr.Count() == 0 {
      return Failed("corpus is empty; there is nothing to spill");
    }
    var writer := new IOWriter([]);
    var ok := StreamClusteredLists(csr, dim, lam, batchSize, cluster, writer);
    if !ok {
      return Failed("the lists could not be spilled");
    }
    ghost var all := Clustered(csr.Rows(), 0, dim, cluster);
    assert writer.bytes == Encode(SectionFields(all), 0);
    SpillRoundTrip(address, all);
    var cursor := new MmapCursor(writer.bytes, address);
    result := MapSection(cursor);
  }

  /**
   * Both ways of building give the lists a single pass gives, whatever the batch size: the window
   * count is not observable. Spilled lists differ from it only in the term pointer of a store
   * without terms, which scoring never reads.
   */
  method BuildClusteredLists(csr: Csr, dim: nat, lam: nat, batchSize: nat, batchPath: bool, cluster: Clustering<StoredClusters>,
                             none: StoredClusters, address: nat)
    returns (result: Result<seq<StoredClusters>>)
    requires csr.Valid() && AllStorable(csr, dim, cluster) && address % 8 == 0
    ensures csr.Count() > 0 ==> (result.Ok? <==> InDimension(csr, dim))
    ensures csr.Count() > 0 && result.Ok? ==> KeptAll(result.value) == KeptAll(Clustered(csr.Rows(), 0, dim, cluster))
    ensures csr.Count() > 0 && result.Ok? && EffectiveBatchSize(batchSize, batchPath) <= 1 ==>
              result.value == Clustered(csr.Rows(), 0, dim, cluster)
    ensures csr.Count() == 0 ==>
              if EffectiveBatchSize(batchSize, batchPath) <= 1 then result == Ok(seq(dim, _ => none)) else result.Failed?
  {
    hide Clustered, AllStorable, InDimension, Csr.Valid, Csr.Rows;
    var batches := EffectiveBatchSize(batchSize, batchPath);
    if batches <= 1 {
      result := BuildInvertedListsClusters(csr, dim, lam, batches, cluster, none);
    } else {
      result := SpillClusteredLists(csr, dim, lam, batches, cluster, address);
    }
  }
}
