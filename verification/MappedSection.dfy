/** Loading the section serialized at a cursor's position. */
module MappedSection {
  import opened Bytes
  import opened Align
  import opened Ranker
  import opened InvertedLists
  import opened Streams
  import opened InlineFormat
  import opened InlineWriter
  import opened InlineReader
  import opened InlineRoundTrip

  // ---------------------------------------------------------------- a section at a position

  /** Where the section serialized at a position starts and how long it says it is. */
  function SectionBounds(data: seq<byte>, pos: nat): (bounds: Option<(nat, nat)>)
    ensures bounds.Some? ==> bounds.value.0 + bounds.value.1 <= |data|
  {
    var prefix := pos + PaddingFor(pos, MIN_BLOCK_ALIGN).value;
    if prefix + 8 > |data| then None
    else
      var len := ReadAt(data, prefix, 8);
      if len > |data| - (prefix + 8) then None else Some((prefix + 8, len))
  }

  ghost predicate SectionLoads(data: seq<byte>, address: nat, pos: nat) {
    var bounds := SectionBounds(data, pos);
    bounds.Some? && Accepts(data[bounds.value.0..bounds.value.0 + bounds.value.1], address + bounds.value.0)
  }

  /** mmap_deserialize: the padding, the length, the directory; the cursor ends just past the section. */
  method MmapDeserialize(cursor: MmapCursor) returns (result: Result<(nat, nat, Loaded)>)
    requires cursor.Valid()
    modifies cursor
    ensures cursor.Valid()
    ensures result.Ok? <==> SectionLoads(cursor.data, cursor.address, old(cursor.pos))
    ensures result.Ok? ==>
              var (start, len, loaded) := result.value;
              && SectionBounds(cursor.data, old(cursor.pos)) == Some((start, len)) && start + len <= |cursor.data|
              && LoadedFrom(loaded, cursor.data[start..start + len], cursor.address + start)
              && cursor.pos == start + len
  {
    hide Accepts, LoadedFrom;
    var skipped := cursor.Skip(PaddingFor(cursor.pos, MIN_BLOCK_ALIGN).value);
    if !skipped {
      return Failed("unexpected end of index file");
    }
    var len := cursor.ReadScalar(8);
    if len.Failed? {
      return Failed(len.reason);
    }
    if len.value > cursor.Remaining() {
      return Failed("section length overruns the mapping");
    }
    var start := cursor.pos;
    var loaded := LoadDirectory(cursor.data[start..start + len.value], cursor.address + start);
    if loaded.Failed? {
      return Failed(loaded.reason);
    }
    var _ := cursor.Skip(len.value);
    return Ok((start, len.value, loaded.value));
  }

  /**
   * A section serialized at any stream offset is found again at that offset: its bounds are its
   * body, and reading ends where writing ended.
   */
  lemma SectionFound(src: Source, before: seq<byte>, after: seq<byte>)
    requires Sizes(src)
    ensures var data := before + SectionAt(src, |before|) + after;
            var bounds := SectionBounds(data, |before|);
            && bounds.Some? && bounds.value.1 == |Body(src)|
            && bounds.value.0 + bounds.value.1 == |before| + |SectionAt(src, |before|)|
            && data[bounds.value.0..bounds.value.0 + bounds.value.1] == Body(src)
            && bounds.value.0 % MIN_BLOCK_ALIGN == 0
  {
    hide Body, Sizes, LE, HasAt, ReadAt, PaddingFor;
    var body := SizedBody(src);
    var pad := Zeros(PaddingFor(|before|, MIN_BLOCK_ALIGN).value);
    var len := LE(|body|, 8);
    var data := before + SectionAt(src, |before|) + after;
    assert data == (before + pad) + len + (body + after);
    HasMiddle(before + pad, len, body + after);
    ReadsScalar(data, |before + pad|, |body|, 8);
    assert data == (before + pad + len) + body + after;
    HasMiddle(before + pad + len, body, after);
    SliceIs(data, |before + pad + len|, body);
  }

  lemma SizedBody(src: Source) returns (body: seq<byte>)
    requires Sizes(src)
    ensures Renderable(src) && body == Body(src) && |body| < Pow256(8)
  {
    body := Body(src);
  }

  lemma SliceIs(b: seq<byte>, off: nat, part: seq<byte>)
    requires HasAt(b, off, part)
    ensures off + |part| <= |b| && b[off..off + |part|] == part
  {
  }

  // ---------------------------------------------------------------- the round trip

  /** block(pl, b) of a loaded index shows the documents of that cluster with their own vectors. */
  ghost predicate ShowsBlock(section: seq<byte>, address: nat, loaded: Loaded, src: Source, pl: nat, b: nat)
    requires pl < |src.lists| && b < |src.lists[pl]|
  {
    && pl + 1 < |loaded.listOffset| && loaded.listOffset[pl] + b < |loaded.entries|
    && (var e := loaded.entries[loaded.listOffset[pl] + b];
        && InSection(e, section) && loaded.elementSize == src.elementSize && src.elementSize > 0
        && BlockOk(section, e, loaded.elementSize)
        && Shows(section, address, ViewOf(section, e, loaded.elementSize), loaded.elementSize, src.rows, src.lists[pl][b]))
  }

  /** The loaded directory numbers lists and blocks as the source does. */
  lemma LoadedNumbering(src: Source, address: nat, loaded: Loaded)
    requires Sizes(src) && LoadedFrom(loaded, Body(src), address)
    ensures |loaded.listOffset| == |src.lists| + 1 && loaded.elementSize == src.elementSize
    ensures loaded.entries == Directory(src, SlotsOf(src.lists))
    ensures forall pl :: 0 <= pl <= |src.lists| ==> loaded.listOffset[pl] == SlotStart(src.lists, pl)
    ensures forall pl :: 0 <= pl < |src.lists| ==> loaded.listOffset[pl + 1] == loaded.listOffset[pl] + |src.lists[pl]|
  {
    hide Body, SlotsOf, CountBelow, EntriesOk, HeaderOk, Sizes, BlockArea, Directory, SlotStart, DirectoryOk, EntriesIn;
    LoadedDirectory(src, address, loaded);
    var slots := SlotsOf(src.lists);
    forall pl | 0 <= pl <= |src.lists|
      ensures loaded.listOffset[pl] == SlotStart(src.lists, pl)
    {
      CountIsStart(loaded.entries, src.lists, pl);
    }
    forall pl | 0 <= pl < |src.lists|
      ensures loaded.listOffset[pl + 1] == loaded.listOffset[pl] + |src.lists[pl]|
    {
      StartNext(src.lists, pl);
    }
  }

  lemma LoadedDirectory(src: Source, address: nat, loaded: Loaded)
    requires Sizes(src) && LoadedFrom(loaded, Body(src), address)
    ensures Renderable(src) && loaded.entries == Directory(src, SlotsOf(src.lists)) && loaded.elementSize == src.elementSize
    ensures |loaded.listOffset| == |src.lists| + 1
    ensures forall p :: 0 <= p < |loaded.listOffset| ==> loaded.listOffset[p] == CountBelow(loaded.entries, p)
    ensures |loaded.entries| == |SlotsOf(src.lists)|
    ensures forall i :: 0 <= i < |loaded.entries| ==> loaded.entries[i].pl == SlotsOf(src.lists)[i].pl
    ensures address % MIN_BLOCK_ALIGN == 0
  {
    hide Body, SlotsOf, CountBelow, EntriesOk, Typed, Writable, BlockOffset, BlockBytes, EntriesIn, ReadHeader, ReadTrailer;
    WrittenIsAccepted(src, address);
    BodyReads(src);
  }

  /**
   * The round trip: whatever page size, layout and offset, block(pl, b) of the mapped index is
   * cluster b of list pl, its documents in order, each with its terms and values.
   */
  lemma BlockRoundTrip(src: Source, address: nat, loaded: Loaded, pl: nat, b: nat)
    requires Sizes(src) && LoadedFrom(loaded, Body(src), address)
    requires pl < |src.lists| && b < |src.lists[pl]|
    ensures ShowsBlock(Body(src), address, loaded, src, pl, b)
  {
    hide Body, SlotsOf, CountBelow, BlockArea, BlockBytes, SlotStart, LoadedFrom, Sizes, Shows, BlockOk, ViewOf, Payload;
    LoadedNumbering(src, address, loaded);
    LoadedDirectory(src, address, loaded);
    SlotAt(src.lists, pl, b);
    SlotFacts(src, SlotStart(src.lists, pl) + b);
    var e := loaded.entries[loaded.listOffset[pl] + b];
    WrittenBlock(Body(src), address, e, src.rows, src.lists[pl][b], src.elementSize);
  }

  /** Slot i's block sits in the body at an aligned offset. */
  lemma SlotFacts(src: Source, i: nat)
    requires Sizes(src) && i < |SlotsOf(src.lists)|
    ensures var slots := SlotsOf(src.lists);
            var docs := slots[i].docs;
            && DocsIn(docs, |src.rows|) && ValidWidth(src.elementSize)
            && Stored(Payload(src.rows, docs), src.elementSize)
            && |docs| <= UINT32_MAX && |Payload(src.rows, docs)| <= INT32_MAX && |src.rows| <= INT32_MAX + 1
            && HasAt(Body(src), BlockOffset(src, slots, i), BlockBytes(src.rows, docs, src.elementSize))
            && BlockOffset(src, slots, i) % 8 == 0
  {
    hide Body, BlockArea, BlockBytes, BlockOffset, HasAt, Payload, SlotsOf, PowerOfTwo;
    var slots := SlotsOf(src.lists);
    assert BlockWritable(slots[i].docs, src.rows);
    PayloadStored(src.rows, slots[i].docs, src.elementSize);
    SlotSits(src, i);
    SlotAligned(src, i);
  }

  lemma SlotSits(src: Source, i: nat)
    requires Sizes(src) && i < |SlotsOf(src.lists)|
    ensures var slots := SlotsOf(src.lists);
            HasAt(Body(src), BlockOffset(src, slots, i), BlockBytes(src.rows, slots[i].docs, src.elementSize))
  {
    hide Body, BlockArea, BlockBytes, HasAt, Payload, SlotsOf, PowerOfTwo, FirstBlock;
    var slots := SlotsOf(src.lists);
    BodyParts(src);
    AreaHas(src, slots, i);
    HasInner(Body(src), FirstBlock(src.alignment), BlockArea(src, slots), |BlockArea(src, slots[..i])|,
             BlockBytes(src.rows, slots[i].docs, src.elementSize));
  }

  lemma SlotAligned(src: Source, i: nat)
    requires Sizes(src) && i < |SlotsOf(src.lists)|
    ensures BlockOffset(src, SlotsOf(src.lists), i) % 8 == 0
  {
    hide Body, BlockArea, BlockBytes, BlockOffset, Payload, SlotsOf, PowerOfTwo;
    var at := BlockOffset(src, SlotsOf(src.lists), i);
    OffsetAligned(src, SlotsOf(src.lists), i);
    PowerOfTwoMultiple(src.alignment);
    MultipleOfEight(at, src.alignment);
  }

  /** A file with a section anywhere in it loads exactly when the section names no more lists than terms exist. */
  lemma FileRoundTrip(src: Source, before: seq<byte>, after: seq<byte>, address: nat)
    requires Sizes(src) && address % MIN_BLOCK_ALIGN == 0
    ensures SectionLoads(before + SectionAt(src, |before|) + after, address, |before|) <==> |src.lists| <= MAX_LISTS
  {
    hide Body, Sizes, Accepts, SectionAt, SectionBounds;
    var _ := SizedBody(src);
    SectionFound(src, before, after);
    var start := SectionBounds(before + SectionAt(src, |before|) + after, |before|).value.0;
    WrittenIsAccepted(src, address + start);
  }
}
