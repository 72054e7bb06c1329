/** The payload of a disk-resident index: written in order, mapped back, every document found again. */
module DiskIndexFile {
  import opened Bytes
  import opened InvertedLists
  import opened Streams
  import opened Serialization
  import opened StoredIndexes
  import opened RemainderRows
  import opened MappedSection
  import InlineFormat
  import InlineWriter
  import InlineReader
  import InlineRoundTrip
  import D = DocDirectory

  type Vector = InlineFormat.Vector
  type Source = InlineFormat.Source

  // ---------------------------------------------------------------- locators

  /** Three 32-bit words a locator. */
  function LocatorWords(locators: seq<D.DocLocator>): (words: seq<nat>)
    ensures |words| == 3 * |locators|
  {
    if locators == [] then []
    else
      var l := locators[|locators| - 1];
      LocatorWords(locators[..|locators| - 1]) + [l.postingList, l.block, l.slot]
  }

  function LocatorsOf(words: seq<nat>, n: nat): (locators: seq<D.DocLocator>)
    requires |words| == 3 * n
    ensures |locators| == n
  {
    seq(n, i requires 0 <= i < n => D.DocLocator(words[3 * i], words[3 * i + 1], words[3 * i + 2]))
  }

  lemma {:induction false} WordAt(locators: seq<D.DocLocator>, i: nat)
    requires i < |locators|
    ensures var words := LocatorWords(locators);
            words[3 * i] == locators[i].postingList && words[3 * i + 1] == locators[i].block && words[3 * i + 2] == locators[i].slot
  {
    if i < |locators| - 1 {
      WordAt(locators[..|locators| - 1], i);
    }
  }

  lemma LocatorsRead(locators: seq<D.DocLocator>)
    ensures LocatorsOf(LocatorWords(locators), |locators|) == locators
  {
    hide LocatorWords;
    forall i | 0 <= i < |locators|
      ensures LocatorsOf(LocatorWords(locators), |locators|)[i] == locators[i]
    {
      WordAt(locators, i);
    }
  }

  // ---------------------------------------------------------------- the directory's bytes

  /** Count and locators behind their padding, then the remainder's CSR. */
  function DirectoryFields(locators: seq<D.DocLocator>, remainder: StoredVectors): seq<Field> {
    [Padded([], 1, 8), Scalar(|locators|), Padded(LocatorWords(locators), 4, 4)] + VectorFields(remainder)
  }

  /** The directory of an index of numDocs vectors, as mapped. */
  function DecodeDirectory(how: Reading, data: seq<byte>, pos: nat, numDocs: nat): (r: Result<(D.Directory, nat)>) {
    var (_, aligned) :- PaddedAt(how, data, pos, 0, 1, 8);
    var (count, at) :- ScalarAt(how, data, aligned, 0);
    if count != numDocs then Failed("doc-locator count disagrees with vector count")
    else
      var (words, afterLocators) :- PaddedAt(how, data, at, 3 * count, 4, 4);
      var (vectors, end) :- DecodeVectors(how, data, afterLocators);
      Ok((D.Directory(LocatorsOf(words, count), RowsOf(vectors)), end))
  }

  /** write_doc_directory: the locators and the remainder, behind whatever was written before. */
  method WriteDirectory(src: Source, dimension: nat, writer: IOWriter) returns (ok: bool, ghost dir: D.Directory)
    requires |src.lists| <= InlineFormat.UINT32_MAX && InlineFormat.ValidWidth(src.elementSize)
    modifies writer
    ensures ok && D.LeadsAll(dir, src)
    ensures |dir.remainder| <= |src.rows| && forall i :: 0 <= i < |dir.remainder| ==> dir.remainder[i] in src.rows
    ensures writer.bytes == old(writer.bytes)
            + Encode(DirectoryFields(dir.locators, StoredRows(dir.remainder, dimension, src.elementSize)), |old(writer.bytes)|)
  {
    hide FieldBytes, Encode, VectorFields, LocatorWords, AllComponents, RowPointers, D.LeadsAll;
    var written := D.WriteDocDirectory(src);
    dir := written;
    ghost var was, done: seq<Field> := writer.bytes, [];
    NothingWritten(was);
    var _ := writer.WritePadded([], 1, 8);
    done := Extend(was, done, Padded([], 1, 8));
    writer.WriteScalar(|written.locators|);
    done := Extend(was, done, Scalar(|written.locators|));
    var _ := writer.WritePadded(LocatorWords(written.locators), 4, 4);
    done := Extend(was, done, Padded(LocatorWords(written.locators), 4, 4));
    var remainder := AppendRows(written.remainder, dimension, src.elementSize);
    ok := SerializeVectors(remainder, writer);
    EncodeAppend(done, VectorFields(remainder), |was|);
    assert done + VectorFields(remainder) == DirectoryFields(dir.locators, remainder);
  }

  /** The mapped reader of the directory. */
  method MapDirectory(cursor: MmapCursor, numDocs: nat) returns (result: Result<D.Directory>)
    requires cursor.Valid()
    modifies cursor
    ensures cursor.Valid()
    ensures var r := DecodeDirectory(Mapped(cursor.address), cursor.data, old(cursor.pos), numDocs);
            (result.Ok? <==> r.Ok?) && (result.Ok? ==> r == Ok((result.value, cursor.pos)))
  {
    hide ScalarAt, PaddedAt, DecodeVectors, RowsOf;
    var aligned := BorrowPadded(cursor, 0, 1, 8);
    if aligned.Failed? {
      return Failed(aligned.reason);
    }
    var count := MapScalar(cursor);
    if count.Failed? {
      return Failed(count.reason);
    }
    if count.value != numDocs {
      return Failed("doc-locator count disagrees with vector count");
    }
    var words := BorrowPadded(cursor, 3 * count.value, 4, 4);
    if words.Failed? {
      return Failed(words.reason);
    }
    var vectors := MapVectors(cursor);
    if vectors.Failed? {
      return Failed(vectors.reason);
    }
    return Ok(D.Directory(LocatorsOf(words.value, count.value), RowsOf(vectors.value)));
  }

  ghost predicate StorableDirectory(dir: D.Directory, dimension: nat, elementSize: nat) {
    && |dir.locators| < SIZE_RANGE
    && (forall i :: 0 <= i < 3 * |dir.locators| ==> LocatorWords(dir.locators)[i] < Pow256(4))
    && (forall i :: 0 <= i < |dir.remainder| ==> InlineFormat.Stored(dir.remainder[i], elementSize))
    && InlineFormat.ValidWidth(elementSize) && 0 < dimension < SIZE_RANGE
    && |dir.remainder| < INT64_RANGE && 4 * |AllComponents(dir.remainder)| < INT64_RANGE
  }

  /** The directory comes back from either reader, for the right vector count only. */
  lemma DirectoryRoundTrip(how: Reading, data: seq<byte>, pos: nat, dir: D.Directory, dimension: nat, elementSize: nat, numDocs: nat)
    requires StorableDirectory(dir, dimension, elementSize) && OnBoundary(how)
    requires HasAt(data, pos, Encode(DirectoryFields(dir.locators, StoredRows(dir.remainder, dimension, elementSize)), pos))
    ensures DecodeDirectory(how, data, pos, numDocs).Ok? <==> numDocs == |dir.locators|
    ensures DecodeDirectory(how, data, pos, numDocs).Ok? ==>
              DecodeDirectory(how, data, pos, numDocs)
              == Ok((dir, pos + |Encode(DirectoryFields(dir.locators, StoredRows(dir.remainder, dimension, elementSize)), pos)|))
  {
    hide Encode, HasAt, ScalarAt, PaddedAt, Place, DecodeVectors, VectorFields, LocatorWords, AllComponents, RowPointers, Fits,
      RowsOf, Mappable, StorableVectors, InlineFormat.Stored, LocatorsOf, StoredRows;
    var head := [Padded([], 1, 8), Scalar(|dir.locators|), Padded(LocatorWords(dir.locators), 4, 4)];
    var remainder := StoredRows(dir.remainder, dimension, elementSize);
    SplitFields(data, pos, head, VectorFields(remainder));
    HeadFits(dir, dimension, elementSize);
    PlaceEnds(head, pos);
    ReadsBack(how, data, pos, head, 0);
    ReadsBack(how, data, pos, head, 1);
    ReadsBack(how, data, pos, head, 2);
    LocatorsRead(dir.locators);
    RemainderReads(how, data, pos + |Encode(head, pos)|, dir.remainder, dimension, elementSize);
  }

  lemma HeadFits(dir: D.Directory, dimension: nat, elementSize: nat)
    requires StorableDirectory(dir, dimension, elementSize)
    ensures Fits(Padded([], 1, 8)) && Fits(Scalar(|dir.locators|)) && Fits(Padded(LocatorWords(dir.locators), 4, 4))
  {
    hide LocatorWords, AllComponents;
    PowValues();
  }

  lemma RemainderReads(how: Reading, data: seq<byte>, pos: nat, rows: seq<Vector>, dimension: nat, elementSize: nat)
    requires forall i :: 0 <= i < |rows| ==> InlineFormat.Stored(rows[i], elementSize)
    requires InlineFormat.ValidWidth(elementSize) && 0 < dimension < SIZE_RANGE
    requires |rows| < INT64_RANGE && 4 * |AllComponents(rows)| < INT64_RANGE && OnBoundary(how)
    requires HasAt(data, pos, Encode(VectorFields(StoredRows(rows, dimension, elementSize)), pos))
    ensures var v := StoredRows(rows, dimension, elementSize);
            && DecodeVectors(how, data, pos) == Ok((v, pos + |Encode(VectorFields(v), pos)|)) && RowsOf(v) == rows
  {
    hide Encode, HasAt, DecodeVectors, VectorFields, AllComponents, RowPointers, RowsOf, Mappable, StorableVectors, InlineFormat.Stored;
    RemainderStorable(rows, dimension, elementSize);
    VectorsRoundTrip(how, data, pos, StoredRows(rows, dimension, elementSize));
    RowsBack(rows, dimension, elementSize);
  }

  // ---------------------------------------------------------------- the whole payload

  /** The offsets cut the documents into groups, or there are none. */
  ghost predicate Grouped(c: StoredClusters) {
    && (forall a, b :: 0 <= a <= b < |c.offsets| ==> c.offsets[a] <= c.offsets[b])
    && (c.offsets != [] ==> c.offsets[|c.offsets| - 1] <= |c.docs|)
  }

  /** The documents of a cluster; none past the last offset. */
  function BlockOf(c: StoredClusters, b: nat): seq<nat>
    requires Grouped(c)
  {
    if |c.offsets| < b + 2 then [] else c.docs[c.offsets[b]..c.offsets[b + 1]]
  }

  function BlocksOf(c: StoredClusters): (blocks: seq<seq<nat>>)
    requires Grouped(c)
    ensures |blocks| == c.nClusters && forall b :: 0 <= b < c.nClusters ==> blocks[b] == BlockOf(c, b)
  {
    seq(c.nClusters, b requires 0 <= b < c.nClusters => BlockOf(c, b))
  }

  function ListsOf(clusters: seq<StoredClusters>): (lists: seq<seq<seq<nat>>>)
    requires forall t :: 0 <= t < |clusters| ==> Grouped(clusters[t])
    ensures |lists| == |clusters| && forall t :: 0 <= t < |clusters| ==> lists[t] == BlocksOf(clusters[t])
  {
    seq(|clusters|, t requires 0 <= t < |clusters| => BlocksOf(clusters[t]))
  }

  function HeadFields(numDocs: nat, clusters: seq<StoredClusters>): seq<Field> {
    [Scalar(numDocs)] + SectionFields(MembersDropped(clusters))
  }

  /** Vector count, summaries, forward index, directory: the payload from stream offset pos on. */
  ghost function PayloadBytes(clusters: seq<StoredClusters>, src: Source, dir: D.Directory, dimension: nat, pos: nat): seq<byte>
    requires InlineFormat.Renderable(src)
  {
    var head := Encode(HeadFields(|src.rows|, clusters), pos);
    var section := InlineWriter.SectionAt(src, pos + |head|);
    head + section
    + Encode(DirectoryFields(dir.locators, StoredRows(dir.remainder, dimension, src.elementSize)), pos + |head| + |section|)
  }

  /** The directory leads to every document of the source, and keeps no row that is not one of its. */
  ghost predicate IsDirectoryOf(dir: D.Directory, src: Source) {
    && D.LeadsAll(dir, src) && |dir.remainder| <= |src.rows|
    && forall i :: 0 <= i < |dir.remainder| ==> dir.remainder[i] in src.rows
  }

  /** write_index: the memberships are written once only, in the forward index. */
  method WriteIndex(clusters: seq<StoredClusters>, src: Source, dimension: nat, writer: IOWriter)
    returns (ok: bool, ghost dir: D.Directory)
    requires forall t :: 0 <= t < |clusters| ==> Grouped(clusters[t])
    requires src.lists == ListsOf(clusters) && InlineWriter.Typed(src) && |src.lists| <= InlineFormat.UINT32_MAX
    modifies writer
    ensures ok <==> (forall t :: 0 <= t < |clusters| ==> clusters[t].elementSize > 0) && InlineWriter.Writable(src)
    ensures ok ==> InlineFormat.Renderable(src) && IsDirectoryOf(dir, src)
    ensures ok ==> writer.bytes == old(writer.bytes) + PayloadBytes(clusters, src, dir, dimension, |old(writer.bytes)|)
  {
    hide Encode, FieldBytes, DirectoryFields, SectionFields, InlineWriter.Typed, InlineWriter.SectionAt, D.LeadsAll, Grouped,
      InlineFormat.Renderable;
    ghost var was := writer.bytes;
    dir := D.Directory([], []);
    ghost var count, summaries := [Scalar(|src.rows|)], SectionFields(MembersDropped(clusters));
    writer.WriteScalar(|src.rows|);
    NothingWritten(was);
    count := Extend(was, [], Scalar(|src.rows|));
    var written := SerializeSection(clusters, true, writer);
    if !written {
      return false, dir;
    }
    EncodeAppend(count, summaries, |was|);
    assert count + summaries == HeadFields(|src.rows|, clusters);
    assert writer.bytes == was + Encode(HeadFields(|src.rows|, clusters), |was|);
    written := InlineWriter.Serialize(src, writer);
    if !written {
      return false, dir;
    }
    ok, dir := WriteDirectory(src, dimension, writer);
  }

  /** A mapped disk index: the summaries, and the forward index with its directory. */
  datatype DiskIndex = DiskIndex(clusters: seq<StoredClusters>, forward: D.Mapped)

  function DecodeHead(how: Reading, data: seq<byte>, pos: nat): Result<((nat, seq<StoredClusters>), nat)> {
    var (numDocs, at) :- ScalarAt(how, data, pos, 0);
    var (clusters, end) :- DecodeSection(how, data, at);
    Ok(((numDocs, clusters), end))
  }

  function SectionEnd(data: seq<byte>, pos: nat): nat {
    var bounds := SectionBounds(data, pos);
    if bounds.Some? then bounds.value.0 + bounds.value.1 else pos
  }

  ghost predicate PayloadLoads(data: seq<byte>, address: nat, pos: nat) {
    var head := DecodeHead(Mapped(address), data, pos);
    && head.Ok? && SectionLoads(data, address, head.value.1)
    && DecodeDirectory(Mapped(address), data, SectionEnd(data, head.value.1), head.value.0.0).Ok?
  }

  /** The index is what the payload at a position says, which ends at `end`. */
  ghost predicate PayloadIs(index: DiskIndex, data: seq<byte>, address: nat, pos: nat, end: nat) {
    var head := DecodeHead(Mapped(address), data, pos);
    && head.Ok? && index.clusters == head.value.0.1
    && (var bounds := SectionBounds(data, head.value.1);
        && bounds.Some? && index.forward.address == address + bounds.value.0
        && index.forward.section == data[bounds.value.0..bounds.value.0 + bounds.value.1]
        && InlineReader.LoadedFrom(index.forward.loaded, index.forward.section, index.forward.address)
        && DecodeDirectory(Mapped(address), data, bounds.value.0 + bounds.value.1, head.value.0.0) == Ok((index.forward.dir, end)))
  }

  /** load_mapped_payload: in the order written. */
  method LoadMappedPayload(cursor: MmapCursor) returns (result: Result<DiskIndex>)
    requires cursor.Valid()
    modifies cursor
    ensures cursor.Valid()
    ensures result.Ok? <==> PayloadLoads(cursor.data, cursor.address, old(cursor.pos))
    ensures result.Ok? ==> PayloadIs(result.value, cursor.data, cursor.address, old(cursor.pos), cursor.pos)
  {
    hide ScalarAt, DecodeSection, DecodeDirectory, InlineReader.Accepts, InlineReader.LoadedFrom, SectionBounds;
    var numDocs := MapScalar(cursor);
    if numDocs.Failed? {
      return Failed(numDocs.reason);
    }
    var clusters := MapSection(cursor);
    if clusters.Failed? {
      return Failed(clusters.reason);
    }
    var forward := MmapDeserialize(cursor);
    if forward.Failed? {
      return Failed(forward.reason);
    }
    var (start, len, loaded) := forward.value;
    var dir := MapDirectory(cursor, numDocs.value);
    if dir.Failed? {
      return Failed(dir.reason);
    }
    return Ok(DiskIndex(clusters.value, D.Mapped(cursor.data[start..start + len], cursor.address + start, loaded, dir.value)));
  }

  // ---------------------------------------------------------------- the payload round trip

  ghost predicate WordsFit(locators: seq<D.DocLocator>, i: nat)
    requires i < |locators|
  {
    var words := LocatorWords(locators);
    words[3 * i] < Pow256(4) && words[3 * i + 1] < Pow256(4) && words[3 * i + 2] < Pow256(4)
  }

  lemma DirectoryStorable(src: Source, dir: D.Directory, dimension: nat)
    requires InlineRoundTrip.Sizes(src) && IsDirectoryOf(dir, src)
    requires 0 < dimension < SIZE_RANGE && 4 * |AllComponents(dir.remainder)| < INT64_RANGE
    ensures StorableDirectory(dir, dimension, src.elementSize) && |dir.locators| == |src.rows|
  {
    hide AllComponents, LocatorWords, InlineFormat.Renderable, InlineFormat.Body, InlineWriter.Writable, InlineFormat.Stored;
    PowValues();
    SourceWidth(src);
    forall i | 0 <= i < |dir.locators|
      ensures WordsFit(dir.locators, i)
    {
      WordAt(dir.locators, i);
      LocatorFits(src, dir, i);
    }
    forall j | 0 <= j < 3 * |dir.locators|
      ensures LocatorWords(dir.locators)[j] < Pow256(4)
    {
      var i := j / 3;
      assert WordsFit(dir.locators, i);
      assert i < |dir.locators| && (j == 3 * i || j == 3 * i + 1 || j == 3 * i + 2);
    }
  }

  lemma SourceWidth(src: Source)
    requires InlineRoundTrip.Sizes(src)
    ensures InlineFormat.ValidWidth(src.elementSize)
  {
    hide InlineFormat.Body, InlineFormat.SlotsOf, InlineWriter.Typed, InlineFormat.Renderable;
  }

  lemma LocatorFits(src: Source, dir: D.Directory, d: nat)
    requires InlineRoundTrip.Sizes(src) && IsDirectoryOf(dir, src)
    requires d < |src.rows|
    ensures var loc := dir.locators[d]; loc.postingList < Pow256(4) && loc.block < Pow256(4) && loc.slot < Pow256(4)
  {
    hide InlineFormat.Renderable, InlineFormat.Body, InlineWriter.Writable, InlineWriter.Typed, InlineFormat.Stored, InlineFormat.BlockBytes,
      InlineFormat.Payload, InlineFormat.SlotsOf, InlineRoundTrip.SlotStart;
    PowValues();
    var loc := dir.locators[d];
    assert D.Leads(loc, dir.remainder, src, d);
    if loc.postingList != D.REMAINDER {
      InlineRoundTrip.SlotAt(src.lists, loc.postingList, loc.block);
      SlotFacts(src, InlineRoundTrip.SlotStart(src.lists, loc.postingList) + loc.block);
    }
  }

  /**
   * A payload written at any offset maps back exactly when it names no more lists than there are
   * terms; and then whole: the summaries without their memberships, the forward index and the
   * directory of the same source, and reading ends where writing ended.
   */
  lemma PayloadRoundTrip(clusters: seq<StoredClusters>, src: Source, dir: D.Directory, dimension: nat,
                         before: seq<byte>, after: seq<byte>, address: nat)
    requires InlineRoundTrip.Sizes(src) && IsDirectoryOf(dir, src)
    requires 0 < dimension < SIZE_RANGE && 4 * |AllComponents(dir.remainder)| < INT64_RANGE && address % 8 == 0
    requires |clusters| < SIZE_RANGE && forall t :: 0 <= t < |clusters| ==> StorableClusters(MembersDropped(clusters)[t])
    ensures InlineFormat.Renderable(src)
    ensures var data := before + PayloadBytes(clusters, src, dir, dimension, |before|) + after;
            && (PayloadLoads(data, address, |before|) <==> |src.lists| <= InlineFormat.MAX_LISTS)
            && forall index, end :: PayloadIs(index, data, address, |before|, end) ==>
                 && end == |data| - |after| && index.clusters == KeptAll(MembersDropped(clusters))
                 && D.MappedFrom(index.forward, src)
  {
    hide InlineRoundTrip.Sizes, InlineFormat.Body, PayloadBytes, DecodeHead, DecodeDirectory, SectionBounds, SectionLoads,
      InlineReader.LoadedFrom, InlineReader.Accepts, AllComponents, StorableClusters, D.LeadsAll;
    PayloadLies(clusters, src, dir, dimension, before, after, address);
    var data := before + PayloadBytes(clusters, src, dir, dimension, |before|) + after;
    forall index, end | PayloadIs(index, data, address, |before|, end)
      ensures |src.lists| <= InlineFormat.MAX_LISTS
    {
      LoadedIsAccepted(index.forward.loaded, index.forward.section, index.forward.address);
    }
  }

  /** What the mapped readers make of the parts of a payload, and where each ends. */
  ghost predicate PayloadReads(data: seq<byte>, address: nat, pos: nat, clusters: seq<StoredClusters>, src: Source, dir: D.Directory,
                               end: nat)
    requires InlineFormat.Renderable(src)
  {
    var head := DecodeHead(Mapped(address), data, pos);
    && head.Ok? && head.value.0 == (|src.rows|, KeptAll(MembersDropped(clusters)))
    && (SectionLoads(data, address, head.value.1) <==> |src.lists| <= InlineFormat.MAX_LISTS)
    && (var bounds := SectionBounds(data, head.value.1);
        && bounds.Some? && data[bounds.value.0..bounds.value.0 + bounds.value.1] == InlineFormat.Body(src)
        && (InlineReader.Accepts(InlineFormat.Body(src), address + bounds.value.0) <==> |src.lists| <= InlineFormat.MAX_LISTS)
        && DecodeDirectory(Mapped(address), data, bounds.value.0 + bounds.value.1, |src.rows|) == Ok((dir, end)))
  }

  lemma PayloadLies(clusters: seq<StoredClusters>, src: Source, dir: D.Directory, dimension: nat,
                    before: seq<byte>, after: seq<byte>, address: nat)
    requires InlineRoundTrip.Sizes(src) && IsDirectoryOf(dir, src)
    requires 0 < dimension < SIZE_RANGE && 4 * |AllComponents(dir.remainder)| < INT64_RANGE && address % 8 == 0
    requires |clusters| < SIZE_RANGE && forall t :: 0 <= t < |clusters| ==> StorableClusters(MembersDropped(clusters)[t])
    ensures InlineFormat.Renderable(src)
    ensures var data := before + PayloadBytes(clusters, src, dir, dimension, |before|) + after;
            PayloadReads(data, address, |before|, clusters, src, dir, |data| - |after|)
    ensures D.LeadsAll(dir, src) && |dir.remainder| <= |src.rows|
  {
    hide InlineRoundTrip.Sizes, InlineFormat.Body, InlineWriter.SectionAt, Encode, HeadFields, DirectoryFields, DecodeHead, DecodeDirectory,
      SectionBounds, SectionLoads, InlineReader.Accepts, AllComponents, StorableClusters, D.LeadsAll, StorableDirectory, StoredRows, HasAt;
    var _ := SizedBody(src);
    var head := Encode(HeadFields(|src.rows|, clusters), |before|);
    var section := InlineWriter.SectionAt(src, |before + head|);
    var tail := Encode(DirectoryFields(dir.locators, StoredRows(dir.remainder, dimension, src.elementSize)), |before + head + section|);
    var data := before + PayloadBytes(clusters, src, dir, dimension, |before|) + after;
    ThreeParts(before, head, section, tail, after);
    HasMiddle(before, head, section + tail + after);
    RowsCount(src);
    HeadReads(Mapped(address), data, |before|, |src.rows|, clusters);
    SectionMaps(src, before + head, tail + after, address);
    HasMiddle(before + head + section, tail, after);
    DirectoryStorable(src, dir, dimension);
    DirectoryRoundTrip(Mapped(address), data, |before + head + section|, dir, dimension, src.elementSize, |src.rows|);
  }

  lemma ThreeParts(before: seq<byte>, head: seq<byte>, section: seq<byte>, tail: seq<byte>, after: seq<byte>)
    ensures var data := before + (head + section + tail) + after;
            && data == before + head + (section + tail + after)
            && data == (before + head) + section + (tail + after)
            && data == (before + head + section) + tail + after
  {
  }

  lemma SectionMaps(src: Source, before: seq<byte>, after: seq<byte>, address: nat)
    requires InlineRoundTrip.Sizes(src) && address % 8 == 0
    ensures InlineFormat.Renderable(src)
    ensures var data := before + InlineWriter.SectionAt(src, |before|) + after;
            var bounds := SectionBounds(data, |before|);
            && (SectionLoads(data, address, |before|) <==> |src.lists| <= InlineFormat.MAX_LISTS) && bounds.Some?
            && data[bounds.value.0..bounds.value.0 + bounds.value.1] == InlineFormat.Body(src)
            && bounds.value.0 + bounds.value.1 == SectionEnd(data, |before|) == |before + InlineWriter.SectionAt(src, |before|)|
            && (InlineReader.Accepts(InlineFormat.Body(src), address + bounds.value.0) <==> |src.lists| <= InlineFormat.MAX_LISTS)
  {
    hide InlineRoundTrip.Sizes, InlineFormat.Body, InlineWriter.SectionAt, SectionBounds, SectionLoads, InlineReader.Accepts;
    var _ := SizedBody(src);
    SectionFound(src, before, after);
    FileRoundTrip(src, before, after, address);
    var start := SectionBounds(before + InlineWriter.SectionAt(src, |before|) + after, |before|).value.0;
    InlineRoundTrip.WrittenIsAccepted(src, address + start);
  }

  lemma LoadedIsAccepted(loaded: InlineReader.Loaded, section: seq<byte>, address: nat)
    requires InlineReader.LoadedFrom(loaded, section, address)
    ensures InlineReader.Accepts(section, address)
  {
  }

  lemma RowsCount(src: Source)
    requires InlineRoundTrip.Sizes(src)
    ensures |src.rows| < SIZE_RANGE
  {
    hide InlineFormat.Body, InlineFormat.Renderable;
  }

  lemma HeadReads(how: Reading, data: seq<byte>, pos: nat, numDocs: nat, clusters: seq<StoredClusters>)
    requires HasAt(data, pos, Encode(HeadFields(numDocs, clusters), pos)) && OnBoundary(how) && numDocs < SIZE_RANGE
    requires |clusters| < SIZE_RANGE && forall t :: 0 <= t < |clusters| ==> StorableClusters(MembersDropped(clusters)[t])
    ensures DecodeHead(how, data, pos)
            == Ok(((numDocs, KeptAll(MembersDropped(clusters))), pos + |Encode(HeadFields(numDocs, clusters), pos)|))
  {
    hide HasAt, Encode, ScalarAt, DecodeSection, StorableClusters, SectionFields, Place, Fits;
    var count := [Scalar(numDocs)];
    SplitFields(data, pos, count, SectionFields(MembersDropped(clusters)));
    CountFits(numDocs);
    ReadsBack(how, data, pos, count, 0);
    PlaceEnds(count, pos);
    SectionRoundTrip(how, data, pos + |Encode(count, pos)|, MembersDropped(clusters));
  }
}
