/** The disk-resident index end to end: built lists are stored, mapped, and searched as the fresh ones are. */
module DiskSeismic {
  import opened SparseDot
  import opened SparseVectors
  import opened CountingSort
  import opened InvertedLists
  import opened KMeans
  import opened ClusteredLists
  import opened Bytes
  import opened Serialization
  import opened StoredIndexes
  import opened RemainderRows
  import opened DiskIndexFile
  import opened DiskSearch
  import opened BatchedBuild
  import Clusters = InvertedListClusters
  import InlineFormat
  import InlineWriter
  import InlineRoundTrip
  import D = DocDirectory

  // ---------------------------------------------------------------- a list's clusters as stored

  /** How summary values are held in bytes of one width. */
  datatype Codec = Codec(width: nat, encode: real -> seq<byte>, decode: seq<byte> -> real)

  /** The codec loses nothing of these cells. */
  ghost predicate Lossless(codec: Codec, cells: seq<Posting>) {
    forall p :: 0 <= p < |cells| ==>
      |codec.encode(cells[p].value)| == codec.width && codec.decode(codec.encode(cells[p].value)) == cells[p].value
  }

  function CellCodes(cells: seq<Posting>, codec: Codec): (codes: seq<seq<byte>>)
    ensures |codes| == |cells| && forall p :: 0 <= p < |cells| ==> codes[p] == codec.encode(cells[p].value)
  {
    seq(|cells|, p requires 0 <= p < |cells| => codec.encode(cells[p].value))
  }

  function StoredOf(list: Clusters.InvertedListClusters, codec: Codec): StoredClusters
    reads list
  {
    StoredClusters(list.docs, list.offsets, list.nClusters, codec.width, list.termIds, list.termPtr, DocsOf(list.csc),
                   Flat(CellCodes(list.csc, codec)))
  }

  /** The cells of a store, their values decoded. */
  function CellsOf(c: StoredClusters, codec: Codec): (cells: seq<Posting>)
    requires |c.cscValue| == codec.width * |c.cscCluster|
    ensures |cells| == |c.cscCluster|
  {
    seq(|c.cscCluster|, p requires 0 <= p < |c.cscCluster| => CellAt(c, codec, p))
  }

  function CellAt(c: StoredClusters, codec: Codec, p: nat): Posting
    requires |c.cscValue| == codec.width * |c.cscCluster| && p < |c.cscCluster|
  {
    WithinRows(codec.width, p, |c.cscCluster|);
    Posting(c.cscCluster[p], codec.decode(AsBytes(c.cscValue[codec.width * p..codec.width * p + codec.width])))
  }

  /** The cells come back from their bytes. */
  lemma CellsBack(list: Clusters.InvertedListClusters, codec: Codec)
    requires Lossless(codec, list.csc)
    ensures var c := StoredOf(list, codec); |c.cscValue| == codec.width * |c.cscCluster| && CellsOf(c, codec) == list.csc
  {
    hide Flat;
    var c, codes := StoredOf(list, codec), CellCodes(list.csc, codec);
    FlatLength(codes, codec.width);
    forall p | 0 <= p < |list.csc|
      ensures CellAt(c, codec, p) == list.csc[p]
    {
      FlatAt(codes, codec.width, p);
      WithinRows(codec.width, p, |codes|);
      assert c.cscValue[codec.width * p..codec.width * p + codec.width] == codes[p];
      assert AsBytes(codes[p]) == codes[p];
    }
  }

  /** The stored form of any well-formed list can be written, and its blocks are the list's clusters. */
  lemma ListIsGrouped(list: Clusters.InvertedListClusters, codec: Codec)
    requires list.ValidMembership()
    ensures Grouped(StoredOf(list, codec))
    ensures forall b: nat :: BlockOf(StoredOf(list, codec), b) == list.GetDocs(b)
  {
    hide Flat;
    if list.offsets != [] {
      forall b: nat
        ensures BlockOf(StoredOf(list, codec), b) == list.GetDocs(b)
      {
      }
    }
  }

  // ---------------------------------------------------------------- a store taken back over

  /** The list holds what the store says. */
  ghost predicate Restores(list: Clusters.InvertedListClusters, c: StoredClusters, codec: Codec)
    reads list
  {
    && |c.cscValue| == codec.width * |c.cscCluster|
    && list.docs == c.docs && list.offsets == c.offsets && list.nClusters == c.nClusters
    && list.termIds == c.termIds && list.termPtr == c.termPtr && list.csc == CellsOf(c, codec)
  }

  /** Takes over the stores of a mapped index; `views` are the summaries they were written from. */
  method RestoreLists(clusters: seq<StoredClusters>, codec: Codec, ghost views: seq<seq<Row>>)
    returns (lists: seq<Clusters.InvertedListClusters>)
    requires forall t :: 0 <= t < |clusters| ==> |clusters[t].cscValue| == codec.width * |clusters[t].cscCluster|
    requires |views| == |clusters|
    ensures fresh(lists) && |lists| == |clusters|
    ensures forall t :: 0 <= t < |lists| ==> Restores(lists[t], clusters[t], codec) && lists[t].summaries == views[t]
  {
    lists := [];
    for t := 0 to |clusters|
      invariant |lists| == t && fresh(lists)
      invariant forall u :: 0 <= u < t ==> Restores(lists[u], clusters[u], codec) && lists[u].summaries == views[u]
    {
      var c := clusters[t];
      var list := new Clusters.InvertedListClusters.Loaded(c.docs, c.offsets, c.nClusters, c.termIds, c.termPtr, CellsOf(c, codec), views[t]);
      lists := lists + [list];
    }
  }

  /** A store that was written without its membership and mapped back scores the summaries it was built from. */
  lemma StoreSurvives(list: Clusters.InvertedListClusters, loaded: Clusters.InvertedListClusters, codec: Codec)
    requires list.ValidStore() && Lossless(codec, list.csc)
    requires Restores(loaded, Kept(StoredOf(list, codec).(docs := [], offsets := [])), codec) && loaded.summaries == list.summaries
    ensures loaded.Valid()
    ensures |ClustersOf(loaded)| == list.nClusters
    ensures forall c :: 0 <= c < list.nClusters ==> ClustersOf(loaded)[c] == Cluster([], list.summaries[c])
  {
    hide Flat, IsTranspose, Clusters.StrictlyIncreasing, Clusters.CoversTerms, Lossless;
    CellsBack(list, codec);
    SameCells(StoredOf(list, codec), Kept(StoredOf(list, codec).(docs := [], offsets := [])), codec);
  }

  /** A spilled list mapped back has the clusters and summaries it was written with. */
  lemma SpilledListSurvives(list: Clusters.InvertedListClusters, loaded: Clusters.InvertedListClusters, codec: Codec)
    requires list.Valid() && Lossless(codec, list.csc)
    requires Restores(loaded, Kept(StoredOf(list, codec)), codec) && loaded.summaries == list.summaries
    ensures loaded.Valid() && ClustersOf(loaded) == ClustersOf(list)
  {
    hide Flat, IsTranspose, Clusters.StrictlyIncreasing, Clusters.CoversTerms, Lossless;
    CellsBack(list, codec);
    SameCells(StoredOf(list, codec), Kept(StoredOf(list, codec)), codec);
  }

  lemma SameCells(a: StoredClusters, b: StoredClusters, codec: Codec)
    requires a.cscCluster == b.cscCluster && a.cscValue == b.cscValue && |a.cscValue| == codec.width * |a.cscCluster|
    ensures CellsOf(a, codec) == CellsOf(b, codec)
  {
    forall p | 0 <= p < |a.cscCluster|
      ensures CellAt(a, codec, p) == CellAt(b, codec, p)
    {
    }
  }

  // ---------------------------------------------------------------- fresh and mapped, searched alike

  /** The stored form of every list. */
  function StoredLists(lists: seq<Clusters.InvertedListClusters>, codec: Codec): (clusters: seq<StoredClusters>)
    reads lists
    ensures |clusters| == |lists| && forall t :: 0 <= t < |lists| ==> clusters[t] == StoredOf(lists[t], codec)
  {
    seq(|lists|, t requires 0 <= t < |lists| reads lists => StoredOf(lists[t], codec))
  }

  /** Fresh lists over a corpus, and what is written of them: their blocks and the corpus's vectors. */
  ghost predicate WrittenFrom(src: InlineFormat.Source, lists: seq<Clusters.InvertedListClusters>, csr: Csr, codec: Codec)
    reads lists
  {
    && (forall t :: 0 <= t < |lists| ==> lists[t].Valid() && Lossless(codec, lists[t].csc))
    && (forall t :: 0 <= t < |lists| ==> Grouped(StoredLists(lists, codec)[t]))
    && src.lists == DiskIndexFile.ListsOf(StoredLists(lists, codec))
    && csr.Valid() && csr.Rows() == D.DecodedRows(src.rows, codec.decode)
  }

  /** The lists taken over from a mapped payload, with the summaries the fresh ones have. */
  ghost predicate TakenOver(loaded: seq<Clusters.InvertedListClusters>, index: DiskIndex, lists: seq<Clusters.InvertedListClusters>, codec: Codec)
    reads loaded, lists
  {
    && |loaded| == |lists| && index.clusters == KeptAll(MembersDropped(StoredLists(lists, codec)))
    && forall t :: 0 <= t < |lists| ==> Restores(loaded[t], index.clusters[t], codec) && loaded[t].summaries == lists[t].summaries
  }

  /** Every list whose membership is well formed can be written. */
  lemma ListsAreGrouped(lists: seq<Clusters.InvertedListClusters>, codec: Codec)
    requires forall t :: 0 <= t < |lists| ==> lists[t].Valid()
    ensures forall t :: 0 <= t < |lists| ==> Grouped(StoredLists(lists, codec)[t])
  {
    hide Grouped, StoredOf, Clusters.InvertedListClusters.ValidStore;
    forall t | 0 <= t < |lists|
      ensures Grouped(StoredLists(lists, codec)[t])
    {
      ListIsGrouped(lists[t], codec);
    }
  }

  /** The blocks written are the lists' clusters. */
  lemma WrittenBlocks(src: InlineFormat.Source, lists: seq<Clusters.InvertedListClusters>, csr: Csr, codec: Codec, t: nat, c: nat)
    requires WrittenFrom(src, lists, csr, codec) && t < |lists| && c < lists[t].nClusters
    ensures |src.lists| == |lists| && |src.lists[t]| == lists[t].nClusters && src.lists[t][c] == lists[t].GetDocs(c)
  {
    hide Grouped, Lossless, Clusters.InvertedListClusters.ValidStore;
    ListIsGrouped(lists[t], codec);
  }

  /** A well-formed source's blocks name documents it has, within the reader's numbering. */
  lemma BlocksInSource(src: InlineFormat.Source, t: nat, c: nat)
    requires InlineRoundTrip.Sizes(src) && t < |src.lists| && c < |src.lists[t]|
    ensures InRange(src.lists[t][c], |src.rows|)
  {
    hide InlineFormat.Body, InlineFormat.SlotsOf, InlineWriter.Typed, InlineWriter.Writable;
    InlineRoundTrip.SlotAt(src.lists, t, c);
    var slots, i := InlineFormat.SlotsOf(src.lists), InlineRoundTrip.SlotStart(src.lists, t) + c;
    assert InlineFormat.DocsIn(slots[i].docs, |src.rows|);
  }

  /** The fresh index serves the blocks from memory. */
  lemma FreshServes(src: InlineFormat.Source, lists: seq<Clusters.InvertedListClusters>, csr: Csr, codec: Codec)
    requires WrittenFrom(src, lists, csr, codec) && InlineRoundTrip.Sizes(src)
    ensures Serves(InMemory(csr), lists, csr.Rows(), src.lists, src)
  {
    hide Grouped, Lossless, InlineRoundTrip.Sizes;
    forall t, c | 0 <= t < |src.lists| && 0 <= c < |src.lists[t]|
      ensures InRange(src.lists[t][c], |csr.Rows()|) && lists[t].GetDocs(c) == src.lists[t][c]
    {
      BlocksInSource(src, t, c);
      WrittenBlocks(src, lists, csr, codec, t, c);
    }
  }

  /** The mapped index serves the same blocks from its forward index, under the summaries of the fresh lists. */
  lemma MappedServes(src: InlineFormat.Source, lists: seq<Clusters.InvertedListClusters>, csr: Csr, codec: Codec, index: DiskIndex,
                     loaded: seq<Clusters.InvertedListClusters>)
    requires WrittenFrom(src, lists, csr, codec) && TakenOver(loaded, index, lists, codec) && D.MappedFrom(index.forward, src)
    ensures Serves(OnDisk(index.forward, codec.decode), loaded, csr.Rows(), src.lists, src)
    ensures forall t :: 0 <= t < |lists| ==> loaded[t].Valid() && lists[t].Valid()
    ensures SameSummaries(ClusteredLists.ListsOf(loaded), ClusteredLists.ListsOf(lists))
  {
    hide Grouped, Lossless, Restores, StoredOf, InlineFormat.Body, Clusters.InvertedListClusters.Valid;
    forall t | 0 <= t < |lists|
      ensures loaded[t].Valid() && |ClustersOf(loaded[t])| == |ClustersOf(lists[t])| == |src.lists[t]|
      ensures forall c :: 0 <= c < |ClustersOf(lists[t])| ==> ClustersOf(loaded[t])[c].summary == ClustersOf(lists[t])[c].summary
    {
      TakenStore(src, lists, csr, codec, index, loaded, t);
    }
    SizesBounds(src);
    forall t, c | 0 <= t < |src.lists| && 0 <= c < |src.lists[t]|
      ensures InRange(src.lists[t][c], |csr.Rows()|)
    {
      BlocksInSource(src, t, c);
    }
  }

  lemma TakenStore(src: InlineFormat.Source, lists: seq<Clusters.InvertedListClusters>, csr: Csr, codec: Codec, index: DiskIndex,
                   loaded: seq<Clusters.InvertedListClusters>, t: nat)
    requires WrittenFrom(src, lists, csr, codec) && TakenOver(loaded, index, lists, codec) && t < |lists|
    ensures loaded[t].Valid() && lists[t].Valid() && loaded[t].nClusters == lists[t].nClusters == |src.lists[t]|
    ensures forall c :: 0 <= c < lists[t].nClusters ==> ClustersOf(loaded[t])[c].summary == ClustersOf(lists[t])[c].summary
  {
    hide Grouped, Lossless;
    StoreSurvives(lists[t], loaded[t], codec);
  }

  lemma SizesBounds(src: InlineFormat.Source)
    requires InlineRoundTrip.Sizes(src)
    ensures forall t :: 0 <= t < |src.lists| ==> |src.lists[t]| <= InlineFormat.UINT32_MAX + 1
  {
    hide InlineFormat.Body, InlineFormat.Renderable, InlineWriter.Typed, InlineWriter.Writable;
  }

  lemma CorpusIsValid(src: InlineFormat.Source, lists: seq<Clusters.InvertedListClusters>, csr: Csr, codec: Codec)
    requires WrittenFrom(src, lists, csr, codec)
    ensures csr.Valid()
  {
  }

  /**
   * Written, mapped and searched: an index mapped from the payload of fresh lists, at any offset,
   * answers every query with the very scores the fresh lists give.
   */
  lemma SearchedAlike(src: InlineFormat.Source, lists: seq<Clusters.InvertedListClusters>, csr: Csr, codec: Codec, dir: D.Directory,
                      dimension: nat, before: seq<byte>, after: seq<byte>, address: nat, index: DiskIndex, end: nat,
                      loaded: seq<Clusters.InvertedListClusters>)
    requires InlineRoundTrip.Sizes(src) && IsDirectoryOf(dir, src) && WrittenFrom(src, lists, csr, codec)
    requires 0 < dimension < SIZE_RANGE && 4 * |AllComponents(dir.remainder)| < INT64_RANGE && address % 8 == 0
    requires |lists| < SIZE_RANGE
    requires forall t :: 0 <= t < |lists| ==> StorableClusters(MembersDropped(StoredLists(lists, codec))[t])
    requires InlineFormat.Renderable(src)
    requires PayloadIs(index, before + PayloadBytes(StoredLists(lists, codec), src, dir, dimension, |before|) + after, address, |before|, end)
    requires |loaded| == |lists| == |index.clusters|
    requires forall t :: 0 <= t < |lists| ==> Restores(loaded[t], index.clusters[t], codec) && loaded[t].summaries == lists[t].summaries
    ensures Serves(InMemory(csr), lists, csr.Rows(), src.lists, src)
    ensures Serves(OnDisk(index.forward, codec.decode), loaded, csr.Rows(), src.lists, src)
    ensures forall t :: 0 <= t < |lists| ==> loaded[t].Valid() && lists[t].Valid()
    ensures forall onDisk, inMemory, cuts, query, kPrime, isMember, k ::
              kPrime + SIZE_T_RANGE >= 0
              && IsBudgetRun(onDisk, ClusteredLists.ListsOf(loaded), cuts, query, kPrime, src.lists, csr.Rows(), isMember, k)
              && IsBudgetRun(inMemory, ClusteredLists.ListsOf(lists), cuts, query, kPrime, src.lists, csr.Rows(), isMember, k) ==>
                (onDisk.Ok? <==> inMemory.Ok?) && (onDisk.Ok? ==> onDisk.value.0 == inMemory.value.0)
  {
    hide Csr.Valid, Csr.Rows, InlineRoundTrip.Sizes, IsDirectoryOf, WrittenFrom, PayloadIs, PayloadBytes, AllComponents, StorableClusters, Serves, IsBudgetRun,
      SameSummaries, Restores, D.MappedFrom;
    PayloadRoundTrip(StoredLists(lists, codec), src, dir, dimension, before, after, address);
    CorpusIsValid(src, lists, csr, codec);
    FreshServes(src, lists, csr, codec);
    MappedServes(src, lists, csr, codec, index, loaded);
    forall onDisk, inMemory, cuts, query, kPrime, isMember, k |
      kPrime + SIZE_T_RANGE >= 0
      && IsBudgetRun(onDisk, ClusteredLists.ListsOf(loaded), cuts, query, kPrime, src.lists, csr.Rows(), isMember, k)
      && IsBudgetRun(inMemory, ClusteredLists.ListsOf(lists), cuts, query, kPrime, src.lists, csr.Rows(), isMember, k)
      ensures (onDisk.Ok? <==> inMemory.Ok?) && (onDisk.Ok? ==> onDisk.value.0 == inMemory.value.0)
    {
      MappedEqualsFresh(onDisk, inMemory, ClusteredLists.ListsOf(loaded), ClusteredLists.ListsOf(lists), cuts, query, kPrime, src.lists,
                        csr.Rows(), isMember, k);
    }
  }
}
