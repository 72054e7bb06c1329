/** Cluster lists, the CSR and the inverted index file: written, copied back and mapped back. */
module StoredIndexes {
  import opened Bytes
  import opened InvertedLists
  import opened Streams
  import opened Serialization

  // ---------------------------------------------------------------- one list's clusters

  /** The stored form of a list's clusters: flattened membership and the term-major summaries. */
  datatype StoredClusters = StoredClusters(docs: seq<nat>, offsets: seq<nat>, nClusters: nat, elementSize: nat,
                                           termIds: seq<nat>, termPtr: seq<nat>, cscCluster: seq<nat>, cscValue: seq<nat>)

  function MemberFields(c: StoredClusters): seq<Field> {
    [Scalar(|c.docs|), Padded(c.docs, 4, 4), Scalar(|c.offsets|), Padded(c.offsets, 4, 4)]
  }

  /** The term arrays are left out, padding and all, when there are no summary terms. */
  function TermFields(c: StoredClusters): seq<Field> {
    if c.termIds == [] then [] else [Padded(c.termIds, 2, 2), Padded(c.termPtr, 4, 4)]
  }

  function StoreFields(c: StoredClusters): seq<Field> {
    [Scalar(c.nClusters), Scalar(c.elementSize), Scalar(|c.termIds|)] + TermFields(c)
    + [Scalar(|c.cscCluster|), Padded(c.cscCluster, 2, 2), Padded(c.cscValue, 1, c.elementSize)]
  }

  function ClusterFields(c: StoredClusters): seq<Field> {
    MemberFields(c) + StoreFields(c)
  }

  ghost predicate StorableClusters(c: StoredClusters) {
    && AllFit(ClusterFields(c))
    && (c.termIds != [] ==> |c.termPtr| == |c.termIds| + 1)
    && |c.cscValue| == |c.cscCluster| * c.elementSize < SIZE_RANGE
  }

  /** The flattened membership: two counted arrays. */
  function DecodeMembers(how: Reading, data: seq<byte>, pos: nat): Result<((seq<nat>, seq<nat>), nat)> {
    var (nDocs, afterCount) :- ScalarAt(how, data, pos, 0);
    var (docs, afterDocs) :- PaddedAt(how, data, afterCount, nDocs, 4, 4);
    var (nOffsets, at) :- ScalarAt(how, data, afterDocs, 0);
    var (offsets, end) :- PaddedAt(how, data, at, nOffsets, 4, 4);
    Ok(((docs, offsets), end))
  }

  function DecodeTerms(how: Reading, data: seq<byte>, pos: nat, nTerms: nat): Result<((seq<nat>, seq<nat>), nat)> {
    if nTerms == 0 then Ok((([], []), pos))
    else
      var (ids, afterIds) :- PaddedAt(how, data, pos, nTerms, 2, 2);
      var (ptr, end) :- PaddedAt(how, data, afterIds, nTerms + 1, 4, 4);
      Ok(((ids, ptr), end))
  }

  function DecodeCells(how: Reading, data: seq<byte>, pos: nat, elementSize: nat): Result<((seq<nat>, seq<nat>), nat)> {
    var (nnz, afterNnz) :- ScalarAt(how, data, pos, 0);
    var (clusters, afterClusters) :- PaddedAt(how, data, afterNnz, nnz, 2, 2);
    var size :- CheckedMul(nnz, elementSize);
    var (values, end) :- PaddedAt(how, data, afterClusters, size, 1, elementSize);
    if !WordsAligned(how, end, size, elementSize) then Failed("cluster summary values are misaligned for the element size")
    else Ok(((clusters, values), end))
  }

  /** deserialize and mmap_deserialize of a fresh list, whose element size starts out as 4. */
  function DecodeClusters(how: Reading, data: seq<byte>, pos: nat): Result<(StoredClusters, nat)> {
    var (members, afterMembers) :- DecodeMembers(how, data, pos);
    var (nClusters, afterClusters) :- ScalarAt(how, data, afterMembers, 0);
    var (elementSize, afterSize) :- ScalarAt(how, data, afterClusters, 4);
    var (nTerms, afterCount) :- ScalarAt(how, data, afterSize, 0);
    var (terms, afterTerms) :- DecodeTerms(how, data, afterCount, nTerms);
    var (cells, end) :- DecodeCells(how, data, afterTerms, elementSize);
    Ok((StoredClusters(members.0, members.1, nClusters, elementSize, terms.0, terms.1, cells.0, cells.1), end))
  }

  /** Serializes the summaries behind a membership, which serialize_summaries_only leaves empty. */
  method SerializeClusters(c: StoredClusters, summariesOnly: bool, writer: IOWriter) returns (ok: bool)
    modifies writer
    ensures ok <==> c.elementSize > 0
    ensures ok ==> writer.bytes == old(writer.bytes)
                   + Encode(ClusterFields(if summariesOnly then c.(docs := [], offsets := []) else c), |old(writer.bytes)|)
  {
    hide FieldBytes, Encode;
    var docs, offsets := if summariesOnly then [] else c.docs, if summariesOnly then [] else c.offsets;
    ghost var stored := c.(docs := docs, offsets := offsets);
    ghost var was, done: seq<Field> := writer.bytes, [];
    NothingWritten(was);
    writer.WriteScalar(|docs|);
    done := Extend(was, done, Scalar(|docs|));
    var _ := writer.WritePadded(docs, 4, 4);
    done := Extend(was, done, Padded(docs, 4, 4));
    writer.WriteScalar(|offsets|);
    done := Extend(was, done, Scalar(|offsets|));
    var _ := writer.WritePadded(offsets, 4, 4);
    done := Extend(was, done, Padded(offsets, 4, 4));
    assert done == MemberFields(stored);
    ok, done := SerializeStore(c, writer, was, done);
    assert MemberFields(stored) + StoreFields(c) == ClusterFields(stored);
  }

  /** serialize_summary_store, behind what is already written. */
  method SerializeStore(c: StoredClusters, writer: IOWriter, ghost was: seq<byte>, ghost before: seq<Field>)
    returns (ok: bool, ghost done: seq<Field>)
    requires writer.bytes == was + Encode(before, |was|)
    modifies writer
    ensures ok <==> c.elementSize > 0
    ensures ok ==> done == before + StoreFields(c) && writer.bytes == was + Encode(done, |was|)
  {
    hide FieldBytes, Encode;
    done := before;
    writer.WriteScalar(c.nClusters);
    done := Extend(was, done, Scalar(c.nClusters));
    writer.WriteScalar(c.elementSize);
    done := Extend(was, done, Scalar(c.elementSize));
    writer.WriteScalar(|c.termIds|);
    done := Extend(was, done, Scalar(|c.termIds|));
    ghost var header := [Scalar(c.nClusters), Scalar(c.elementSize), Scalar(|c.termIds|)];
    assert done == before + header;
    if |c.termIds| > 0 {
      var _ := writer.WritePadded(c.termIds, 2, 2);
      done := Extend(was, done, Padded(c.termIds, 2, 2));
      var _ := writer.WritePadded(c.termPtr, 4, 4);
      done := Extend(was, done, Padded(c.termPtr, 4, 4));
    }
    assert done == before + (header + TermFields(c));
    writer.WriteScalar(|c.cscCluster|);
    done := Extend(was, done, Scalar(|c.cscCluster|));
    var _ := writer.WritePadded(c.cscCluster, 2, 2);
    done := Extend(was, done, Padded(c.cscCluster, 2, 2));
    ok := writer.WritePadded(c.cscValue, 1, c.elementSize);
    done := Extend(was, done, Padded(c.cscValue, 1, c.elementSize));
    assert done == before + StoreFields(c);
  }

  /** The copying reader, field by field. */
  method DeserializeClusters(reader: IOReader) returns (result: Result<StoredClusters>)
    requires reader.Valid()
    modifies reader
    ensures reader.Valid()
    ensures var r := DecodeClusters(Copied, reader.data, old(reader.pos));
            (result.Ok? <==> r.Ok?) && (result.Ok? ==> r == Ok((result.value, reader.pos)))
  {
    hide ScalarAt, PaddedAt;
    var nDocs := reader.ReadScalar(0);
    var docs := reader.ReadPadded(nDocs, 4, 4);
    if docs.Failed? {
      return Failed(docs.reason);
    }
    var nOffsets := reader.ReadScalar(0);
    var offsets := reader.ReadPadded(nOffsets, 4, 4);
    if offsets.Failed? {
      return Failed(offsets.reason);
    }
    var nClusters := reader.ReadScalar(0);
    var elementSize := reader.ReadScalar(4);
    var nTerms := reader.ReadScalar(0);
    var termIds, termPtr: seq<nat> := [], [];
    if nTerms > 0 {
      var ids := reader.ReadPadded(nTerms, 2, 2);
      if ids.Failed? {
        return Failed(ids.reason);
      }
      var ptr := reader.ReadPadded(nTerms + 1, 4, 4);
      if ptr.Failed? {
        return Failed(ptr.reason);
      }
      termIds, termPtr := ids.value, ptr.value;
    }
    var nnz := reader.ReadScalar(0);
    var cscCluster := reader.ReadPadded(nnz, 2, 2);
    if cscCluster.Failed? {
      return Failed(cscCluster.reason);
    }
    var size := CheckedMul(nnz, elementSize);
    if size.Failed? {
      return Failed(size.reason);
    }
    var cscValue := reader.ReadPadded(size.value, 1, elementSize);
    if cscValue.Failed? {
      return Failed(cscValue.reason);
    }
    return Ok(StoredClusters(docs.value, offsets.value, nClusters, elementSize, termIds, termPtr, cscCluster.value, cscValue.value));
  }

  /** The mapped reader, field by field. */
  method MapClusters(cursor: MmapCursor) returns (result: Result<StoredClusters>)
    requires cursor.Valid()
    modifies cursor
    ensures cursor.Valid()
    ensures var r := DecodeClusters(Mapped(cursor.address), cursor.data, old(cursor.pos));
            (result.Ok? <==> r.Ok?) && (result.Ok? ==> r == Ok((result.value, cursor.pos)))
  {
    hide ScalarAt, PaddedAt, DecodeMembers, DecodeTerms, DecodeCells;
    var members := MapMembers(cursor);
    if members.Failed? {
      return Failed(members.reason);
    }
    var nClusters := MapScalar(cursor);
    if nClusters.Failed? {
      return Failed(nClusters.reason);
    }
    var elementSize := MapScalar(cursor);
    if elementSize.Failed? {
      return Failed(elementSize.reason);
    }
    var nTerms := MapScalar(cursor);
    if nTerms.Failed? {
      return Failed(nTerms.reason);
    }
    var terms := MapTerms(cursor, nTerms.value);
    if terms.Failed? {
      return Failed(terms.reason);
    }
    var cells := MapCells(cursor, elementSize.value);
    if cells.Failed? {
      return Failed(cells.reason);
    }
    return Ok(StoredClusters(members.value.0, members.value.1, nClusters.value, elementSize.value,
                             terms.value.0, terms.value.1, cells.value.0, cells.value.1));
  }

  method MapMembers(cursor: MmapCursor) returns (result: Result<(seq<nat>, seq<nat>)>)
    requires cursor.Valid()
    modifies cursor
    ensures cursor.Valid()
    ensures var r := DecodeMembers(Mapped(cursor.address), cursor.data, old(cursor.pos));
            (result.Ok? <==> r.Ok?) && (result.Ok? ==> r == Ok((result.value, cursor.pos)))
  {
    hide ScalarAt, PaddedAt;
    var nDocs := MapScalar(cursor);
    if nDocs.Failed? {
      return Failed(nDocs.reason);
    }
    var docs := BorrowPadded(cursor, nDocs.value, 4, 4);
    if docs.Failed? {
      return Failed(docs.reason);
    }
    var nOffsets := MapScalar(cursor);
    if nOffsets.Failed? {
      return Failed(nOffsets.reason);
    }
    var offsets := BorrowPadded(cursor, nOffsets.value, 4, 4);
    if offsets.Failed? {
      return Failed(offsets.reason);
    }
    return Ok((docs.value, offsets.value));
  }

  method MapTerms(cursor: MmapCursor, nTerms: nat) returns (result: Result<(seq<nat>, seq<nat>)>)
    requires cursor.Valid()
    modifies cursor
    ensures cursor.Valid()
    ensures var r := DecodeTerms(Mapped(cursor.address), cursor.data, old(cursor.pos), nTerms);
            (result.Ok? <==> r.Ok?) && (result.Ok? ==> r == Ok((result.value, cursor.pos)))
  {
    hide ScalarAt, PaddedAt;
    if nTerms == 0 {
      return Ok(([], []));
    }
    var ids := BorrowPadded(cursor, nTerms, 2, 2);
    if ids.Failed? {
      return Failed(ids.reason);
    }
    var ptr := BorrowPadded(cursor, nTerms + 1, 4, 4);
    if ptr.Failed? {
      return Failed(ptr.reason);
    }
    return Ok((ids.value, ptr.value));
  }

  method MapCells(cursor: MmapCursor, elementSize: nat) returns (result: Result<(seq<nat>, seq<nat>)>)
    requires cursor.Valid()
    modifies cursor
    ensures cursor.Valid()
    ensures var r := DecodeCells(Mapped(cursor.address), cursor.data, old(cursor.pos), elementSize);
            (result.Ok? <==> r.Ok?) && (result.Ok? ==> r == Ok((result.value, cursor.pos)))
  {
    hide ScalarAt, PaddedAt;
    var nnz := MapScalar(cursor);
    if nnz.Failed? {
      return Failed(nnz.reason);
    }
    var clusters := BorrowPadded(cursor, nnz.value, 2, 2);
    if clusters.Failed? {
      return Failed(clusters.reason);
    }
    var size := CheckedMul(nnz.value, elementSize);
    if size.Failed? {
      return Failed(size.reason);
    }
    var values := BorrowPadded(cursor, size.value, 1, elementSize);
    if values.Failed? {
      return Failed(values.reason);
    }
    if !WordsAligned(Mapped(cursor.address), cursor.pos, size.value, elementSize) {
      return Failed("cluster summary values are misaligned for the element size");
    }
    return Ok((clusters.value, values.value));
  }

  /** What comes back of a list: the pointer of a store without terms is not stored. */
  function Kept(c: StoredClusters): StoredClusters {
    if c.termIds == [] then c.(termPtr := []) else c
  }

  /** Fields found in place read back wherever they sit among the others. */
  lemma FieldAt(how: Reading, data: seq<byte>, pos: nat, fields: seq<Field>, i: nat, f: Field)
    requires HasAt(data, pos, Encode(fields, pos)) && AllFit(fields) && OnBoundary(how)
    requires i < |fields| && fields[i] == f
    ensures FieldReads(how, data, f, Place(fields, pos, i), Place(fields, pos, i + 1))
  {
    hide Encode, HasAt, ScalarAt, PaddedAt;
    ReadsBack(how, data, pos, fields, i);
  }

  lemma MembersRead(how: Reading, data: seq<byte>, pos: nat, c: StoredClusters)
    requires StorableClusters(c) && OnBoundary(how) && HasAt(data, pos, Encode(ClusterFields(c), pos))
    ensures DecodeMembers(how, data, pos) == Ok(((c.docs, c.offsets), Place(ClusterFields(c), pos, 4)))
  {
    hide Encode, HasAt, ScalarAt, PaddedAt, AllFit;
    var fields := ClusterFields(c);
    FieldAt(how, data, pos, fields, 0, Scalar(|c.docs|));
    FieldAt(how, data, pos, fields, 1, Padded(c.docs, 4, 4));
    FieldAt(how, data, pos, fields, 2, Scalar(|c.offsets|));
    FieldAt(how, data, pos, fields, 3, Padded(c.offsets, 4, 4));
    PlaceEnds(fields, pos);
  }

  lemma TermsRead(how: Reading, data: seq<byte>, pos: nat, c: StoredClusters)
    requires StorableClusters(c) && OnBoundary(how) && HasAt(data, pos, Encode(ClusterFields(c), pos))
    ensures DecodeTerms(how, data, Place(ClusterFields(c), pos, 7), |c.termIds|)
            == Ok(((c.termIds, Kept(c).termPtr), Place(ClusterFields(c), pos, 7 + |TermFields(c)|)))
  {
    hide Encode, HasAt, ScalarAt, PaddedAt, AllFit, Place;
    if c.termIds != [] {
      FieldAt(how, data, pos, ClusterFields(c), 7, Padded(c.termIds, 2, 2));
      FieldAt(how, data, pos, ClusterFields(c), 8, Padded(c.termPtr, 4, 4));
    }
  }

  lemma CellsRead(how: Reading, data: seq<byte>, pos: nat, c: StoredClusters)
    requires StorableClusters(c) && OnBoundary(how) && HasAt(data, pos, Encode(ClusterFields(c), pos))
    ensures var at := 7 + |TermFields(c)|;
            at + 3 == |ClusterFields(c)| &&
            DecodeCells(how, data, Place(ClusterFields(c), pos, at), c.elementSize)
            == Ok(((c.cscCluster, c.cscValue), Place(ClusterFields(c), pos, at + 3)))
  {
    hide Encode, HasAt, ScalarAt, PaddedAt, AllFit, Place;
    var fields, at := ClusterFields(c), 7 + |TermFields(c)|;
    FieldAt(how, data, pos, fields, at, Scalar(|c.cscCluster|));
    FieldAt(how, data, pos, fields, at + 1, Padded(c.cscCluster, 2, 2));
    FieldAt(how, data, pos, fields, at + 2, Padded(c.cscValue, 1, c.elementSize));
    LastFits(fields);
    if how.Mapped? {
      WordsStartAligned(how, data, Place(fields, pos, at + 2), |c.cscValue|, c.elementSize);
    }
  }

  lemma LastFits(fields: seq<Field>)
    requires fields != [] && AllFit(fields)
    ensures Fits(fields[|fields| - 1])
  {
  }

  /** A list's clusters come back from either reader, which stops behind them. */
  lemma ClustersRoundTrip(how: Reading, data: seq<byte>, pos: nat, c: StoredClusters)
    requires StorableClusters(c) && OnBoundary(how) && HasAt(data, pos, Encode(ClusterFields(c), pos))
    ensures DecodeClusters(how, data, pos) == Ok((Kept(c), pos + |Encode(ClusterFields(c), pos)|))
  {
    hide Encode, HasAt, ScalarAt, PaddedAt, AllFit, Place, DecodeMembers, DecodeTerms, DecodeCells, ClusterFields, StorableClusters;
    var fields := ClusterFields(c);
    CountsStored(c);
    MembersRead(how, data, pos, c);
    FieldAt(how, data, pos, fields, 4, Scalar(c.nClusters));
    FieldAt(how, data, pos, fields, 5, Scalar(c.elementSize));
    FieldAt(how, data, pos, fields, 6, Scalar(|c.termIds|));
    TermsRead(how, data, pos, c);
    CellsRead(how, data, pos, c);
    PlaceEnds(fields, pos);
  }

  lemma CountsStored(c: StoredClusters)
    requires StorableClusters(c)
    ensures AllFit(ClusterFields(c)) && |ClusterFields(c)| == 10 + |TermFields(c)|
    ensures ClusterFields(c)[4] == Scalar(c.nClusters) && ClusterFields(c)[5] == Scalar(c.elementSize)
    ensures ClusterFields(c)[6] == Scalar(|c.termIds|)
  {
  }

  /** The clusters come back unchanged exactly when there are summary terms, or no pointer to lose. */
  lemma UnchangedIffTerms(data: seq<byte>, pos: nat, c: StoredClusters)
    requires StorableClusters(c) && HasAt(data, pos, Encode(ClusterFields(c), pos))
    ensures DecodeClusters(Copied, data, pos) == Ok((c, pos + |Encode(ClusterFields(c), pos)|)) <==>
            c.termIds != [] || c.termPtr == []
  {
    hide DecodeClusters, StorableClusters, HasAt, Encode, ClusterFields;
    ClustersRoundTrip(Copied, data, pos, c);
  }

  /** Where a membership of so many documents and offsets ends. */
  function MembersEnd(nDocs: nat, nOffsets: nat, pos: nat): (end: nat)
    ensures end >= pos + 16
  {
    PaddedEnd(PaddedEnd(pos + 8, nDocs, 4, 4) + 8, nOffsets, 4, 4)
  }

  function TermsEnd(nTerms: nat, pos: nat): (end: nat)
    ensures end >= pos
  {
    if nTerms == 0 then pos else PaddedEnd(PaddedEnd(pos, nTerms, 2, 2), nTerms + 1, 4, 4)
  }

  function CellsEnd(nnz: nat, size: nat, elementSize: nat, pos: nat): (end: nat)
    ensures end >= pos + 8
  {
    PaddedEnd(PaddedEnd(pos + 8, nnz, 2, 2), size, 1, elementSize)
  }

  /** Where a list's clusters at pos end. */
  function ClustersEnd(c: StoredClusters, pos: nat): (end: nat)
    ensures end >= pos + 8
  {
    CellsEnd(|c.cscCluster|, |c.cscValue|, c.elementSize, TermsEnd(|c.termIds|, MembersEnd(|c.docs|, |c.offsets|, pos) + 24))
  }

  /** The stream holds the cells to their end, and their values start on their own boundary. */
  ghost predicate CellsWhole(address: nat, limit: nat, nnz: nat, size: nat, elementSize: nat, pos: nat) {
    var end := CellsEnd(nnz, size, elementSize, pos);
    end <= limit && WordsAligned(Mapped(address), end, size, elementSize)
  }

  /** The stream holds the clusters to their end, and their values start on their own boundary. */
  ghost predicate ClustersWhole(address: nat, limit: nat, c: StoredClusters, pos: nat) {
    ClustersEnd(c, pos) <= limit && WordsAligned(Mapped(address), ClustersEnd(c, pos), |c.cscValue|, c.elementSize)
  }

  /** With a loadable width, being all there is enough. */
  lemma WholeIffThere(address: nat, limit: nat, c: StoredClusters, pos: nat)
    requires address % 8 == 0 && Addressable(1, c.elementSize)
    ensures ClustersWhole(address, limit, c, pos) <==> ClustersEnd(c, pos) <= limit
  {
    hide MembersEnd, TermsEnd, PaddedEnd, WordsAligned;
    var cells := TermsEnd(|c.termIds|, MembersEnd(|c.docs|, |c.offsets|, pos) + 24);
    EndAligned(address, PaddedEnd(cells + 8, |c.cscCluster|, 2, 2), |c.cscValue|, c.elementSize);
  }

  lemma MembersAgree(address: nat, data: seq<byte>, pos: nat)
    requires pos <= |data|
    ensures var mapped, copied := DecodeMembers(Mapped(address), data, pos), DecodeMembers(Copied, data, pos);
            && (mapped.Ok? ==> copied == mapped && mapped.value.1 == MembersEnd(|mapped.value.0.0|, |mapped.value.0.1|, pos))
            && (copied.Ok? ==> pos <= copied.value.1 <= |data|)
            && (address % 8 == 0 ==>
                  (mapped.Ok? <==> copied.Ok? && MembersEnd(|copied.value.0.0|, |copied.value.0.1|, pos) <= |data|))
  {
    hide ScalarAt, PaddedAt, PaddedEnd;
    ScalarAgrees(address, data, pos, 0);
    var (nDocs, afterCount) := ScalarAt(Copied, data, pos, 0).value;
    PaddedAgrees(address, data, afterCount, nDocs, 4, 4);
    var docs := PaddedAt(Copied, data, afterCount, nDocs, 4, 4);
    if docs.Ok? {
      ScalarAgrees(address, data, docs.value.1, 0);
      var (nOffsets, at) := ScalarAt(Copied, data, docs.value.1, 0).value;
      PaddedAgrees(address, data, at, nOffsets, 4, 4);
      if address % 8 == 0 {
        PaddedWhole(address, data, afterCount, nDocs, 4, 4);
        PaddedWhole(address, data, at, nOffsets, 4, 4);
      }
    }
  }

  lemma TermsAgree(address: nat, data: seq<byte>, pos: nat, nTerms: nat)
    requires pos <= |data|
    ensures var mapped, copied := DecodeTerms(Mapped(address), data, pos, nTerms), DecodeTerms(Copied, data, pos, nTerms);
            && (mapped.Ok? ==> copied == mapped && mapped.value.1 == TermsEnd(nTerms, pos))
            && (copied.Ok? ==> |copied.value.0.0| == nTerms && pos <= copied.value.1 <= |data|)
            && (address % 8 == 0 ==> (mapped.Ok? <==> copied.Ok? && TermsEnd(nTerms, pos) <= |data|))
  {
    hide ScalarAt, PaddedAt, PaddedEnd;
    PaddedAgrees(address, data, pos, nTerms, 2, 2);
    var ids := PaddedAt(Copied, data, pos, nTerms, 2, 2);
    if ids.Ok? {
      PaddedAgrees(address, data, ids.value.1, nTerms + 1, 4, 4);
      if address % 8 == 0 {
        PaddedWhole(address, data, pos, nTerms, 2, 2);
        PaddedWhole(address, data, ids.value.1, nTerms + 1, 4, 4);
      }
    }
  }

  lemma CellsAgree(address: nat, data: seq<byte>, pos: nat, elementSize: nat)
    requires pos <= |data|
    ensures var mapped, copied := DecodeCells(Mapped(address), data, pos, elementSize), DecodeCells(Copied, data, pos, elementSize);
            && (mapped.Ok? ==> copied == mapped)
            && (mapped.Ok? ==> mapped.value.1 == CellsEnd(|mapped.value.0.0|, |mapped.value.0.1|, elementSize, pos))
            && (copied.Ok? ==> pos <= copied.value.1 <= |data|)
            && (address % 8 == 0 ==>
                  (mapped.Ok? <==> copied.Ok? && CellsWhole(address, |data|, |copied.value.0.0|, |copied.value.0.1|, elementSize, pos)))
  {
    hide ScalarAt, PaddedAt, PaddedEnd;
    ScalarAgrees(address, data, pos, 0);
    var (nnz, afterNnz) := ScalarAt(Copied, data, pos, 0).value;
    PaddedAgrees(address, data, afterNnz, nnz, 2, 2);
    var clusters := PaddedAt(Copied, data, afterNnz, nnz, 2, 2);
    if clusters.Ok? && nnz * elementSize < SIZE_RANGE {
      PaddedAgrees(address, data, clusters.value.1, nnz * elementSize, 1, elementSize);
      if address % 8 == 0 {
        PaddedWhole(address, data, afterNnz, nnz, 2, 2);
        PaddedWhole(address, data, clusters.value.1, nnz * elementSize, 1, elementSize);
      }
    }
  }

  /**
   * Over any bytes: clusters the mapped reader accepts are the ones copied, and on an 8-aligned
   * mapping it accepts exactly the copied ones that are all there and aligned.
   */
  lemma ClustersReadersAgree(address: nat, data: seq<byte>, pos: nat)
    requires pos <= |data|
    ensures var mapped, copied := DecodeClusters(Mapped(address), data, pos), DecodeClusters(Copied, data, pos);
            && (mapped.Ok? ==> copied == mapped && mapped.value.1 == ClustersEnd(mapped.value.0, pos))
            && (copied.Ok? ==> pos <= copied.value.1 <= |data|)
            && (address % 8 == 0 ==> (mapped.Ok? <==> copied.Ok? && ClustersWhole(address, |data|, copied.value.0, pos)))
  {
    hide ScalarAt, DecodeMembers, DecodeTerms, DecodeCells, MembersEnd, TermsEnd, CellsEnd, WordsAligned;
    MembersAgree(address, data, pos);
    var members := DecodeMembers(Copied, data, pos);
    if members.Ok? {
      ScalarAgrees(address, data, members.value.1, 0);
      var afterClusters := ScalarAt(Copied, data, members.value.1, 0).value.1;
      ScalarAgrees(address, data, afterClusters, 4);
      var (elementSize, afterSize) := ScalarAt(Copied, data, afterClusters, 4).value;
      ScalarAgrees(address, data, afterSize, 0);
      var (nTerms, afterCount) := ScalarAt(Copied, data, afterSize, 0).value;
      TermsAgree(address, data, afterCount, nTerms);
      var terms := DecodeTerms(Copied, data, afterCount, nTerms);
      if terms.Ok? {
        CellsAgree(address, data, terms.value.1, elementSize);
      }
    }
  }

  // ---------------------------------------------------------------- every list's clusters

  function ClusterRecords(lists: seq<StoredClusters>): (records: seq<seq<Field>>)
    ensures |records| == |lists| && forall t :: 0 <= t < |lists| ==> records[t] == ClusterFields(lists[t])
  {
    seq(|lists|, t requires 0 <= t < |lists| => ClusterFields(lists[t]))
  }

  /** The list count, then every list's clusters in term order. */
  function SectionFields(lists: seq<StoredClusters>): seq<Field> {
    [Scalar(|lists|)] + Joined(ClusterRecords(lists))
  }

  function DecodeSection(how: Reading, data: seq<byte>, pos: nat): Result<(seq<StoredClusters>, nat)> {
    var (n, at) :- ScalarAt(how, data, pos, 0);
    DecodeEach((p: nat) => DecodeClusters(how, data, p), at, n)
  }

  function KeptAll(lists: seq<StoredClusters>): (kept: seq<StoredClusters>)
    ensures |kept| == |lists| && forall t :: 0 <= t < |lists| ==> kept[t] == Kept(lists[t])
  {
    seq(|lists|, t requires 0 <= t < |lists| => Kept(lists[t]))
  }

  function MembersDropped(lists: seq<StoredClusters>): (dropped: seq<StoredClusters>)
    ensures |dropped| == |lists| && forall t :: 0 <= t < |lists| ==> dropped[t] == lists[t].(docs := [], offsets := [])
  {
    seq(|lists|, t requires 0 <= t < |lists| => lists[t].(docs := [], offsets := []))
  }

  /** The whole posting-list section, with or without the memberships. */
  method SerializeSection(lists: seq<StoredClusters>, summariesOnly: bool, writer: IOWriter) returns (ok: bool)
    modifies writer
    ensures ok <==> forall t :: 0 <= t < |lists| ==> lists[t].elementSize > 0
    ensures ok ==> writer.bytes == old(writer.bytes)
                   + Encode(SectionFields(if summariesOnly then MembersDropped(lists) else lists), |old(writer.bytes)|)
  {
    hide FieldBytes, Encode, ClusterFields, Joined;
    ghost var stored := if summariesOnly then MembersDropped(lists) else lists;
    ghost var was, done: seq<Field>, records := writer.bytes, [], ClusterRecords(stored);
    NothingWritten(was);
    writer.WriteScalar(|lists|);
    done := Extend(was, done, Scalar(|lists|));
    ghost var header := [Scalar(|lists|)];
    NoRecords(header, records[..0]);
    assert done == header;
    for t := 0 to |lists|
      invariant forall u :: 0 <= u < t ==> lists[u].elementSize > 0
      invariant writer.bytes == was + Encode(header + Joined(records[..t]), |was|)
    {
      var written := SerializeClusters(lists[t], summariesOnly, writer);
      if !written {
        return false;
      }
      OneMoreRecord(was, header, records, t);
    }
    assert records[..|lists|] == records;
    return true;
  }

  method DeserializeSection(reader: IOReader) returns (result: Result<seq<StoredClusters>>)
    requires reader.Valid()
    modifies reader
    ensures reader.Valid()
    ensures var r := DecodeSection(Copied, reader.data, old(reader.pos));
            (result.Ok? <==> r.Ok?) && (result.Ok? ==> r == Ok((result.value, reader.pos)))
  {
    hide ScalarAt, DecodeClusters;
    var n := reader.ReadScalar(0);
    ghost var decode, start := (p: nat) => DecodeClusters(Copied, reader.data, p), reader.pos;
    var lists: seq<StoredClusters> := [];
    for t := 0 to n
      invariant reader.Valid() && DecodeEach(decode, start, t) == Ok((lists, reader.pos))
    {
      var list := DeserializeClusters(reader);
      if list.Failed? {
        EachStops(decode, start, t, n);
        return Failed(list.reason);
      }
      lists := lists + [list.value];
    }
    return Ok(lists);
  }

  method MapSection(cursor: MmapCursor) returns (result: Result<seq<StoredClusters>>)
    requires cursor.Valid()
    modifies cursor
    ensures cursor.Valid()
    ensures var r := DecodeSection(Mapped(cursor.address), cursor.data, old(cursor.pos));
            (result.Ok? <==> r.Ok?) && (result.Ok? ==> r == Ok((result.value, cursor.pos)))
  {
    hide ScalarAt, DecodeClusters;
    var n := MapScalar(cursor);
    if n.Failed? {
      return Failed(n.reason);
    }
    ghost var decode, start := (p: nat) => DecodeClusters(Mapped(cursor.address), cursor.data, p), cursor.pos;
    var lists: seq<StoredClusters> := [];
    for t := 0 to n.value
      invariant cursor.Valid() && DecodeEach(decode, start, t) == Ok((lists, cursor.pos))
    {
      var list := MapClusters(cursor);
      if list.Failed? {
        EachStops(decode, start, t, n.value);
        return Failed(list.reason);
      }
      lists := lists + [list.value];
    }
    return Ok(lists);
  }

  /** Every list of a section comes back in term order, and reading stops where writing stopped. */
  lemma SectionRoundTrip(how: Reading, data: seq<byte>, pos: nat, lists: seq<StoredClusters>)
    requires |lists| < SIZE_RANGE && forall t :: 0 <= t < |lists| ==> StorableClusters(lists[t])
    requires OnBoundary(how) && HasAt(data, pos, Encode(SectionFields(lists), pos))
    ensures DecodeSection(how, data, pos) == Ok((KeptAll(lists), pos + |Encode(SectionFields(lists), pos)|))
  {
    hide Encode, ScalarAt, HasAt, DecodeClusters, ClusterFields, StorableClusters, Joined;
    var header, records := [Scalar(|lists|)], ClusterRecords(lists);
    SplitFields(data, pos, header, Joined(records));
    ReadsBack(how, data, pos, header, 0);
    PlaceEnds(header, pos);
    var at := pos + |Encode(header, pos)|;
    forall t | 0 <= t < |lists|
      ensures DecodeClusters(how, data, RecordStart(records, at, t)) == Ok((KeptAll(lists)[t], RecordStart(records, at, t + 1)))
    {
      RecordSits(data, at, records, t);
      ClustersRoundTrip(how, data, RecordStart(records, at, t), lists[t]);
    }
    EachReads((p: nat) => DecodeClusters(how, data, p), at, records, KeptAll(lists), |lists|);
    assert KeptAll(lists)[..|lists|] == KeptAll(lists) && records[..|lists|] == records;
  }

  /** A spill holds nothing but the section, so a mapping of it reads back every list. */
  lemma SpillRoundTrip(address: nat, lists: seq<StoredClusters>)
    requires |lists| < SIZE_RANGE && forall t :: 0 <= t < |lists| ==> StorableClusters(lists[t])
    requires address % 8 == 0
    ensures var spill := Encode(SectionFields(lists), 0);
            DecodeSection(Mapped(address), spill, 0) == Ok((KeptAll(lists), |spill|))
  {
    hide Encode, DecodeSection, StorableClusters;
    SectionRoundTrip(Mapped(address), Encode(SectionFields(lists), 0), 0, lists);
  }

  /** The count and every list's clusters are in the stream to their ends, the values on their own boundary. */
  ghost predicate SectionWhole(address: nat, limit: nat, lists: seq<StoredClusters>, pos: nat) {
    && pos + 8 <= limit
    && AllWhole(lists, pos + 8, ClustersEnd, (c: StoredClusters, p: nat) => ClustersWhole(address, limit, c, p))
  }

  /**
   * Over any bytes on an 8-aligned mapping: the mapped reader accepts exactly the copied sections
   * that are all there and aligned, and gives the same.
   */
  lemma SectionReadersAgree(address: nat, data: seq<byte>, pos: nat)
    requires pos <= |data| && address % 8 == 0
    ensures var mapped, copied := DecodeSection(Mapped(address), data, pos), DecodeSection(Copied, data, pos);
            && (mapped.Ok? ==> copied == mapped)
            && (mapped.Ok? <==> copied.Ok? && SectionWhole(address, |data|, copied.value.0, pos))
  {
    hide ScalarAt, DecodeClusters, ClustersEnd, ClustersWhole;
    ScalarAgrees(address, data, pos, 0);
    var (n, at) := ScalarAt(Copied, data, pos, 0).value;
    var whole := (c: StoredClusters, p: nat) => ClustersWhole(address, |data|, c, p);
    forall p: nat | p <= |data|
      ensures var mapped, copied := DecodeClusters(Mapped(address), data, p), DecodeClusters(Copied, data, p);
              && (mapped.Ok? ==> copied == mapped && mapped.value.1 == ClustersEnd(mapped.value.0, p))
              && (copied.Ok? ==> p <= copied.value.1 <= |data|)
              && (mapped.Ok? <==> copied.Ok? && whole(copied.value.0, p))
    {
      ClustersReadersAgree(address, data, p);
    }
    EachAgrees((p: nat) => DecodeClusters(Mapped(address), data, p), (p: nat) => DecodeClusters(Copied, data, p), at, n, |data|,
               ClustersEnd, whole);
  }

  /** A section cut off before its count is copied as an empty one, and refused by the mapped reader. */
  lemma TruncatedSection(address: nat)
    ensures DecodeSection(Copied, [], 0) == Ok(([], 0)) && DecodeSection(Mapped(address), [], 0).Failed?
  {
  }

  // ---------------------------------------------------------------- the vectors

  const INT64_RANGE: nat := 0x8000_0000_0000_0000

  /** The stored CSR; without vectors neither dimension nor width is stored. */
  datatype StoredVectors = NoVectors
    | Vectors(dimension: nat, elementSize: nat, indptr: seq<nat>, indices: seq<nat>, values: seq<nat>)

  function VectorFields(v: StoredVectors): seq<Field> {
    match v
    case NoVectors => [Scalar(0)]
    case Vectors(dimension, elementSize, indptr, indices, values) =>
      [Scalar(if indptr == [] then 0 else |indptr| - 1), Scalar(dimension), Scalar(elementSize),
       Padded(indptr, 8, 8), Padded(indices, 2, 2), Padded(values, 1, elementSize)]
  }

  ghost predicate StorableVectors(v: StoredVectors) {
    && AllFit(VectorFields(v))
    && (v.Vectors? ==>
          && |v.indptr| >= 2 && v.indptr[|v.indptr| - 1] == |v.indices|
          && |v.values| == |v.indices| * v.elementSize < SIZE_RANGE)
  }

  /** A 64-bit word as a signed number. */
  function Signed(x: nat): (signed: int)
    ensures signed == x || signed == x - 0x1_0000_0000_0000_0000
    ensures x < SIZE_RANGE ==> -0x8000_0000_0000_0000 <= signed < 0x8000_0000_0000_0000
  {
    if x < INT64_RANGE then x else x - SIZE_RANGE
  }

  /** What map_vectors checks before it borrows. */
  predicate Mappable(dimension: nat, elementSize: nat, indptr: seq<nat>)
    requires indptr != []
  {
    && dimension > 0
    && (elementSize == 1 || elementSize == 2 || elementSize == 4 || elementSize == 8)
    && indptr[0] == 0
    && forall i :: 1 <= i < |indptr| ==> Signed(indptr[i - 1]) <= Signed(indptr[i])
  }

  /** deserialize, and mmap_deserialize with map_vectors' validation. */
  function DecodeVectors(how: Reading, data: seq<byte>, pos: nat): Result<(StoredVectors, nat)> {
    var (count, afterCount) :- ScalarAt(how, data, pos, 0);
    if count == 0 then Ok((NoVectors, afterCount))
    else
      var (dimension, afterDimension) :- ScalarAt(how, data, afterCount, 0);
      var (elementSize, afterSize) :- ScalarAt(how, data, afterDimension, 0);
      var (indptr, afterIndptr) :- PaddedAt(how, data, afterSize, count + 1, 8, 8);
      var (indices, afterIndices) :- PaddedAt(how, data, afterIndptr, indptr[count], 2, 2);
      var size :- CheckedMul(indptr[count], elementSize);
      var (values, end) :- PaddedAt(how, data, afterIndices, size, 1, elementSize);
      if how.Mapped? && !(Mappable(dimension, elementSize, indptr) && WordsAligned(how, end, size, elementSize))
      then Failed("mapped vectors are malformed")
      else Ok((Vectors(dimension, elementSize, indptr, indices, values), end))
  }

  method SerializeVectors(v: StoredVectors, writer: IOWriter) returns (ok: bool)
    requires v.Vectors? ==> |v.indptr| >= 2
    modifies writer
    ensures ok <==> v.NoVectors? || v.elementSize > 0
    ensures ok ==> writer.bytes == old(writer.bytes) + Encode(VectorFields(v), |old(writer.bytes)|)
  {
    hide FieldBytes, Encode;
    ghost var was, done: seq<Field> := writer.bytes, [];
    NothingWritten(was);
    var count := if v.NoVectors? then 0 else |v.indptr| - 1;
    writer.WriteScalar(count);
    done := Extend(was, done, Scalar(count));
    if v.NoVectors? {
      assert done == VectorFields(v);
      return true;
    }
    writer.WriteScalar(v.dimension);
    done := Extend(was, done, Scalar(v.dimension));
    writer.WriteScalar(v.elementSize);
    done := Extend(was, done, Scalar(v.elementSize));
    var _ := writer.WritePadded(v.indptr, 8, 8);
    done := Extend(was, done, Padded(v.indptr, 8, 8));
    var _ := writer.WritePadded(v.indices, 2, 2);
    done := Extend(was, done, Padded(v.indices, 2, 2));
    ok := writer.WritePadded(v.values, 1, v.elementSize);
    done := Extend(was, done, Padded(v.values, 1, v.elementSize));
    assert done == VectorFields(v);
  }

  method DeserializeVectors(reader: IOReader) returns (result: Result<StoredVectors>)
    requires reader.Valid()
    modifies reader
    ensures reader.Valid()
    ensures var r := DecodeVectors(Copied, reader.data, old(reader.pos));
            (result.Ok? <==> r.Ok?) && (result.Ok? ==> r == Ok((result.value, reader.pos)))
  {
    hide ScalarAt, PaddedAt;
    var count := reader.ReadScalar(0);
    if count == 0 {
      return Ok(NoVectors);
    }
    var dimension := reader.ReadScalar(0);
    var elementSize := reader.ReadScalar(0);
    var indptr := reader.ReadPadded(count + 1, 8, 8);
    if indptr.Failed? {
      return Failed(indptr.reason);
    }
    var indices := reader.ReadPadded(indptr.value[count], 2, 2);
    if indices.Failed? {
      return Failed(indices.reason);
    }
    var size := CheckedMul(indptr.value[count], elementSize);
    if size.Failed? {
      return Failed(size.reason);
    }
    var values := reader.ReadPadded(size.value, 1, elementSize);
    if values.Failed? {
      return Failed(values.reason);
    }
    return Ok(Vectors(dimension, elementSize, indptr.value, indices.value, values.value));
  }

  method MapVectors(cursor: MmapCursor) returns (result: Result<StoredVectors>)
    requires cursor.Valid()
    modifies cursor
    ensures cursor.Valid()
    ensures var r := DecodeVectors(Mapped(cursor.address), cursor.data, old(cursor.pos));
            (result.Ok? <==> r.Ok?) && (result.Ok? ==> r == Ok((result.value, cursor.pos)))
  {
    hide ScalarAt, PaddedAt, Mappable;
    var count := MapScalar(cursor);
    if count.Failed? {
      return Failed(count.reason);
    }
    if count.value == 0 {
      return Ok(NoVectors);
    }
    var dimension := MapScalar(cursor);
    if dimension.Failed? {
      return Failed(dimension.reason);
    }
    var elementSize := MapScalar(cursor);
    if elementSize.Failed? {
      return Failed(elementSize.reason);
    }
    var indptr := BorrowPadded(cursor, count.value + 1, 8, 8);
    if indptr.Failed? {
      return Failed(indptr.reason);
    }
    var nnz := indptr.value[count.value];
    var indices := BorrowPadded(cursor, nnz, 2, 2);
    if indices.Failed? {
      return Failed(indices.reason);
    }
    var size := CheckedMul(nnz, elementSize.value);
    if size.Failed? {
      return Failed(size.reason);
    }
    var values := BorrowPadded(cursor, size.value, 1, elementSize.value);
    if values.Failed? {
      return Failed(values.reason);
    }
    var sound := ValidateMapped(dimension.value, elementSize.value, indptr.value);
    if !sound || !WordsAligned(Mapped(cursor.address), cursor.pos, size.value, elementSize.value) {
      return Failed("mapped vectors are malformed");
    }
    return Ok(Vectors(dimension.value, elementSize.value, indptr.value, indices.value, values.value));
  }

  /** map_vectors' walk over the row offsets. */
  method ValidateMapped(dimension: nat, elementSize: nat, indptr: seq<nat>) returns (sound: bool)
    requires indptr != []
    ensures sound <==> Mappable(dimension, elementSize, indptr)
  {
    if dimension == 0 || (elementSize != 1 && elementSize != 2 && elementSize != 4 && elementSize != 8) {
      return false;
    }
    if indptr[0] != 0 {
      return false;
    }
    for i := 1 to |indptr|
      invariant forall j :: 1 <= j < i ==> Signed(indptr[j - 1]) <= Signed(indptr[j])
    {
      if Signed(indptr[i]) < Signed(indptr[i - 1]) {
        return false;
      }
    }
    return true;
  }

  /** The copying reader gives the vectors back; the mapped one exactly when they are well formed. */
  lemma VectorsRoundTrip(how: Reading, data: seq<byte>, pos: nat, v: StoredVectors)
    requires StorableVectors(v) && OnBoundary(how) && HasAt(data, pos, Encode(VectorFields(v), pos))
    ensures DecodeVectors(how, data, pos) == Ok((v, pos + |Encode(VectorFields(v), pos)|)) <==>
            how.Copied? || v.NoVectors? || Mappable(v.dimension, v.elementSize, v.indptr)
    ensures DecodeVectors(how, data, pos).Ok? ==> DecodeVectors(how, data, pos).value.0 == v
  {
    hide Encode, HasAt, ScalarAt, PaddedAt, AllFit, Place, Mappable;
    var fields := VectorFields(v);
    PlaceEnds(fields, pos);
    if v.NoVectors? {
      FieldAt(how, data, pos, fields, 0, Scalar(0));
    } else {
      FieldAt(how, data, pos, fields, 0, Scalar(|v.indptr| - 1));
      FieldAt(how, data, pos, fields, 1, Scalar(v.dimension));
      FieldAt(how, data, pos, fields, 2, Scalar(v.elementSize));
      FieldAt(how, data, pos, fields, 3, Padded(v.indptr, 8, 8));
      FieldAt(how, data, pos, fields, 4, Padded(v.indices, 2, 2));
      FieldAt(how, data, pos, fields, 5, Padded(v.values, 1, v.elementSize));
      LastFits(fields);
      if how.Mapped? {
        WordsStartAligned(how, data, Place(fields, pos, 5), |v.values|, v.elementSize);
      }
    }
  }

  /**
   * Over any bytes on an 8-aligned mapping: the mapped reader accepts exactly what the copying
   * reader accepts, if the count is all there and the rows are well formed, and gives the same.
   */
  lemma VectorsReadersAgree(address: nat, data: seq<byte>, pos: nat)
    requires pos <= |data| && address % 8 == 0
    ensures var copied := DecodeVectors(Copied, data, pos);
            && (DecodeVectors(Mapped(address), data, pos).Ok? <==>
                copied.Ok? && pos + 8 <= |data|
                && (copied.value.0.Vectors? ==>
                      copied.value.0.indptr != [] && Mappable(copied.value.0.dimension, copied.value.0.elementSize, copied.value.0.indptr)))
            && (DecodeVectors(Mapped(address), data, pos).Ok? ==> DecodeVectors(Mapped(address), data, pos) == copied)
  {
    hide ScalarAt, PaddedAt, PadCount, Mappable;
    ScalarAgrees(address, data, pos, 0);
    var (count, afterCount) := ScalarAt(Copied, data, pos, 0).value;
    if count > 0 {
      ScalarAgrees(address, data, afterCount, 0);
      var (dimension, afterDimension) := ScalarAt(Copied, data, afterCount, 0).value;
      ScalarAgrees(address, data, afterDimension, 0);
      var (elementSize, afterSize) := ScalarAt(Copied, data, afterDimension, 0).value;
      ShortScalars(data, pos, afterCount, afterDimension, afterSize, count + 1);
      RowsAgree(address, data, afterSize, count, dimension, elementSize);
    }
  }

  /** A matrix cut off before its count is copied as an empty one, and refused by the mapped reader. */
  lemma TruncatedVectors(address: nat)
    ensures DecodeVectors(Copied, [], 0) == Ok((NoVectors, 0)) && DecodeVectors(Mapped(address), [], 0).Failed?
  {
  }

  /** One row that claims to start behind its end: written, copied back, and refused by the mapped reader. */
  lemma MalformedVectors(address: nat)
    requires address % 8 == 0
    ensures var v := Vectors(3, 4, [1, 0], [], []);
            var data := Encode(VectorFields(v), 0);
            && DecodeVectors(Copied, data, 0) == Ok((v, |data|))
            && DecodeVectors(Mapped(address), data, 0) != Ok((v, |data|))
  {
    hide Encode, DecodeVectors, PadCount, ArrayAt;
    var v := Vectors(3, 4, [1, 0], [], []);
    var data := Encode(VectorFields(v), 0);
    assert StorableVectors(v) by {
      PowValues();
    }
    hide StorableVectors, VectorFields;
    assert data[0..0 + |data|] == data;
    VectorsRoundTrip(Copied, data, 0, v);
    VectorsRoundTrip(Mapped(address), data, 0, v);
  }

  /** After a short read nothing is left for a non-empty array. */
  lemma ShortScalars(data: seq<byte>, pos: nat, a: nat, b: nat, c: nat, n: nat)
    requires pos <= |data| && n > 0
    requires ScalarAt(Copied, data, pos, 0).value.1 == a && ScalarAt(Copied, data, a, 0).value.1 == b && ScalarAt(Copied, data, b, 0).value.1 == c
    ensures c <= |data|
    ensures PaddedAt(Copied, data, c, n, 8, 8).Ok? ==> pos + 24 <= |data| && a == pos + 8 && b == a + 8 && c == b + 8
  {
  }

  /** The arrays behind the scalars, read both ways. */
  lemma RowsAgree(address: nat, data: seq<byte>, pos: nat, count: nat, dimension: nat, elementSize: nat)
    requires pos <= |data| && address % 8 == 0
    ensures var indptr := PaddedAt(Copied, data, pos, count + 1, 8, 8);
            && (PaddedAt(Mapped(address), data, pos, count + 1, 8, 8).Ok? <==> indptr.Ok?)
            && (indptr.Ok? ==> PaddedAt(Mapped(address), data, pos, count + 1, 8, 8) == indptr)
            && (indptr.Ok? ==>
                  var nnz, afterIndptr := indptr.value.0[count], indptr.value.1;
                  var indices := PaddedAt(Copied, data, afterIndptr, nnz, 2, 2);
                  && (PaddedAt(Mapped(address), data, afterIndptr, nnz, 2, 2).Ok? <==> indices.Ok?)
                  && (indices.Ok? ==> PaddedAt(Mapped(address), data, afterIndptr, nnz, 2, 2) == indices)
                  && (indices.Ok? && nnz * elementSize < SIZE_RANGE ==>
                        ValuesAgree(address, data, indices.value.1, nnz * elementSize, dimension, elementSize, indptr.value.0)))
  {
    hide PaddedAt, PadCount, Mappable;
    PaddedDiffers(address, data, pos, count + 1, 8, 8);
    PaddedAgrees(address, data, pos, count + 1, 8, 8);
    var indptr := PaddedAt(Copied, data, pos, count + 1, 8, 8);
    if indptr.Ok? {
      var nnz, afterIndptr := indptr.value.0[count], indptr.value.1;
      ArrayEndsAligned(data, pos, count + 1);
      PaddedDiffers(address, data, afterIndptr, nnz, 2, 2);
      PaddedAgrees(address, data, afterIndptr, nnz, 2, 2);
      NoPadding(afterIndptr, 2);
      var indices := PaddedAt(Copied, data, afterIndptr, nnz, 2, 2);
      if indices.Ok? && nnz * elementSize < SIZE_RANGE {
        ValuesBothWays(address, data, afterIndptr, nnz, elementSize, dimension, indptr.value.0);
      }
    }
  }

  /** The values read the same both ways wherever the mapped reader would keep them. */
  ghost predicate ValuesAgree(address: nat, data: seq<byte>, pos: nat, size: nat, dimension: nat, elementSize: nat, indptr: seq<nat>)
    requires indptr != []
  {
    var mapped, copied := PaddedAt(Mapped(address), data, pos, size, 1, elementSize), PaddedAt(Copied, data, pos, size, 1, elementSize);
    && (mapped.Ok? ==> copied == mapped)
    && (Mappable(dimension, elementSize, indptr) && copied.Ok? ==>
          mapped.Ok? && WordsAligned(Mapped(address), mapped.value.1, size, elementSize))
  }

  lemma ValuesBothWays(address: nat, data: seq<byte>, pos: nat, nnz: nat, elementSize: nat, dimension: nat, indptr: seq<nat>)
    requires address % 8 == 0 && pos % 8 == 0 && pos <= |data| && indptr != []
    requires PaddedAt(Copied, data, pos, nnz, 2, 2).Ok?
    ensures ValuesAgree(address, data, PaddedAt(Copied, data, pos, nnz, 2, 2).value.1, nnz * elementSize, dimension, elementSize, indptr)
  {
    hide PaddedAt, PadCount;
    PaddedAgrees(address, data, pos, nnz, 2, 2);
    var at, size := PaddedAt(Copied, data, pos, nnz, 2, 2).value.1, nnz * elementSize;
    PaddedAgrees(address, data, at, size, 1, elementSize);
    if Mappable(dimension, elementSize, indptr) && PaddedAt(Copied, data, at, size, 1, elementSize).Ok? {
      PaddedDiffers(address, data, at, size, 1, elementSize);
      if nnz == 0 {
        NoPadding(pos, 2);
        EmptyArrayEnd(data, pos, 2, 2);
        NoPadding(pos, elementSize);
      } else {
        assert size > 0;
      }
      WordsStartAligned(Mapped(address), data, at, size, elementSize);
    }
  }

  lemma NoPadding(pos: nat, alignment: nat)
    requires pos % 8 == 0 && Addressable(1, alignment)
    ensures PadCount(pos, alignment) == 0
  {
    if alignment == 1 {
      assert PadCount(pos, 1) == 0;
    } else if alignment == 2 {
      assert PadCount(pos, 2) == 0;
    } else if alignment == 4 {
      assert PadCount(pos, 4) == 0;
    } else {
      assert PadCount(pos, 8) == 0;
    }
  }

  /** Eight-byte elements end on an 8-byte boundary. */
  lemma ArrayEndsAligned(data: seq<byte>, pos: nat, n: nat)
    requires pos <= |data| && n > 0 && PaddedAt(Copied, data, pos, n, 8, 8).Ok?
    ensures PaddedAt(Copied, data, pos, n, 8, 8).value.1 % 8 == 0
  {
    assert pos + PadCount(pos, 8) <= |data|;
    assert (pos + PadCount(pos, 8)) % 8 == 0;
  }

  // ---------------------------------------------------------------- the inverted index file

  /** The payload of an inverted index: the document count, the lists, one maximum per term. */
  datatype IndexFile = IndexFile(numVectors: nat, lists: seq<PostingList>, maxScores: seq<nat>)

  /** What write_index writes, its values being 4 bytes wide. */
  function IndexFields(f: IndexFile): seq<Field> {
    [Scalar(f.numVectors)] + ArrayFields(f.lists, 4) + [Scalar(|f.maxScores|), Padded(f.maxScores, 4, 4)]
  }

  /** read_index and mmap_index: a file with fewer maxima than terms is rejected. */
  function DecodeIndex(how: Reading, data: seq<byte>, pos: nat): Result<(IndexFile, nat)> {
    var (numVectors, afterCount) :- ScalarAt(how, data, pos, 0);
    var (lists, afterLists) :- DecodeLists(how, data, afterCount, 4);
    var (nScores, at) :- ScalarAt(how, data, afterLists, 0);
    var (scores, end) :- PaddedAt(how, data, at, nScores, 4, 4);
    if nScores != |lists| then Failed("per-term score count does not match the term count")
    else Ok((IndexFile(numVectors, lists, scores), end))
  }

  /** write_index: the count, the lists, and one maximum per term behind its padding. */
  method WriteIndexFile(f: IndexFile, writer: IOWriter) returns (ok: bool)
    modifies writer
    ensures ok && writer.bytes == old(writer.bytes) + Encode(IndexFields(f), |old(writer.bytes)|)
  {
    hide FieldBytes, Encode, ArrayFields;
    ghost var was, done: seq<Field> := writer.bytes, [];
    NothingWritten(was);
    writer.WriteScalar(f.numVectors);
    done := Extend(was, done, Scalar(f.numVectors));
    ok := SerializeLists(f.lists, 4, writer);
    EncodeAppend(done, ArrayFields(f.lists, 4), |was|);
    done := done + ArrayFields(f.lists, 4);
    assert writer.bytes == was + Encode(done, |was|);
    writer.WriteScalar(|f.maxScores|);
    done := Extend(was, done, Scalar(|f.maxScores|));
    ok := writer.WritePadded(f.maxScores, 4, 4);
    done := Extend(was, done, Padded(f.maxScores, 4, 4));
    assert done == IndexFields(f);
  }

  /** read_index: nothing is committed before the whole file has been read. */
  method ReadIndexFile(reader: IOReader) returns (result: Result<IndexFile>)
    requires reader.Valid()
    modifies reader
    ensures reader.Valid()
    ensures var r := DecodeIndex(Copied, reader.data, old(reader.pos));
            (result.Ok? <==> r.Ok?) && (result.Ok? ==> r == Ok((result.value, reader.pos)))
  {
    hide ScalarAt, PaddedAt, DecodeLists;
    var numVectors := reader.ReadScalar(0);
    var lists := DeserializeLists(reader, 4);
    if lists.Failed? {
      return Failed(lists.reason);
    }
    var nScores := reader.ReadScalar(0);
    var scores := reader.ReadPadded(nScores, 4, 4);
    if scores.Failed? {
      return Failed(scores.reason);
    }
    if nScores != |lists.value| {
      return Failed("per-term score count does not match the term count");
    }
    return Ok(IndexFile(numVectors, lists.value, scores.value));
  }

  /** mmap_index: the mapping is read from offset pos on. */
  method MapIndexFile(data: seq<byte>, address: nat, pos: nat) returns (result: Result<IndexFile>)
    ensures result.Ok? <==> pos <= |data| && DecodeIndex(Mapped(address), data, pos).Ok?
    ensures result.Ok? ==> result.value == DecodeIndex(Mapped(address), data, pos).value.0
  {
    hide ScalarAt, PaddedAt, DecodeLists;
    var cursor := new MmapCursor(data, address);
    var skipped := cursor.Skip(pos);
    if !skipped {
      return Failed("unexpected end of index file");
    }
    var numVectors := MapScalar(cursor);
    if numVectors.Failed? {
      return Failed(numVectors.reason);
    }
    var lists := MapLists(cursor, 4);
    if lists.Failed? {
      return Failed(lists.reason);
    }
    var nScores := MapScalar(cursor);
    if nScores.Failed? {
      return Failed(nScores.reason);
    }
    var scores := BorrowPadded(cursor, nScores.value, 4, 4);
    if scores.Failed? {
      return Failed(scores.reason);
    }
    if nScores.value != |lists.value| {
      return Failed("per-term score count does not match the term count");
    }
    return Ok(IndexFile(numVectors.value, lists.value, scores.value));
  }

  /** An index file loads, by either reader and unchanged, exactly when it has one maximum per term. */
  lemma IndexRoundTrip(how: Reading, data: seq<byte>, pos: nat, f: IndexFile)
    requires StorableLists(f.lists, 4) && f.numVectors < SIZE_RANGE && OnBoundary(how)
    requires AllFit([Scalar(|f.maxScores|), Padded(f.maxScores, 4, 4)])
    requires HasAt(data, pos, Encode(IndexFields(f), pos))
    ensures DecodeIndex(how, data, pos).Ok? <==> |f.maxScores| == |f.lists|
    ensures DecodeIndex(how, data, pos).Ok? ==> DecodeIndex(how, data, pos) == Ok((f, pos + |Encode(IndexFields(f), pos)|))
  {
    hide Encode, HasAt, ScalarAt, PaddedAt, Place, ArrayFields, DecodeLists, StorableLists, Fits;
    var head, tail := [Scalar(f.numVectors)], [Scalar(|f.maxScores|), Padded(f.maxScores, 4, 4)];
    SplitFields(data, pos, head + ArrayFields(f.lists, 4), tail);
    SplitFields(data, pos, head, ArrayFields(f.lists, 4));
    var afterHead := pos + |Encode(head, pos)|;
    var afterLists := afterHead + |Encode(ArrayFields(f.lists, 4), afterHead)|;
    CountFits(f.numVectors);
    ReadsBack(how, data, pos, head, 0);
    PlaceEnds(head, pos);
    ListsRoundTrip(how, data, afterHead, f.lists, 4);
    ReadsBack(how, data, afterLists, tail, 0);
    ReadsBack(how, data, afterLists, tail, 1);
    PlaceEnds(tail, afterLists);
  }

  lemma CountFits(x: nat)
    requires x < SIZE_RANGE
    ensures Fits(Scalar(x))
  {
    PowValues();
  }
}
