/** Writing a section: the payload-free sizing pass, the streamed body, and the length prefix. */
module InlineWriter {
  import opened Bytes
  import opened Align
  import opened InvertedLists
  import opened InlineFormat
  import opened Streams

  // ---------------------------------------------------------------- what can be written

  /** A block's counts fit the format's fields and its documents exist. */
  ghost predicate BlockWritable(docs: seq<nat>, rows: seq<Vector>) {
    |docs| < 0x1_0000_0000 && DocsIn(docs, |rows|) && |Payload(rows, docs)| < 0x8000_0000
  }

  ghost predicate SlotsWritable(slots: seq<Slot>, rows: seq<Vector>) {
    forall i :: 0 <= i < |slots| ==> BlockWritable(slots[i].docs, rows)
  }

  ghost predicate Writable(src: Source) {
    ValidWidth(src.elementSize) && SlotsWritable(SlotsOf(src.lists), src.rows)
  }

  /** What the types guarantee: 16-bit terms, values of the element's width, a positive alignment. */
  ghost predicate Typed(src: Source) {
    src.alignment > 0 && forall d :: 0 <= d < |src.rows| ==> Stored(src.rows[d], src.elementSize)
  }

  datatype Layout = PageAligned | Packed

  /** The write-mode constructor: a page size must be a power of two that holds the header. */
  method MakeSource(lists: seq<seq<seq<nat>>>, rows: seq<Vector>, elementSize: nat, pageSize: nat, layout: Layout)
    returns (result: Result<Source>)
    ensures result.Ok? <==> layout == Packed || (PowerOfTwo(pageSize) && pageSize >= HEADER_SIZE)
    ensures result.Ok? ==> result.value.lists == lists && result.value.rows == rows && result.value.elementSize == elementSize
    ensures result.Ok? ==> PowerOfTwo(result.value.alignment) && result.value.alignment >= MIN_BLOCK_ALIGN
    ensures result.Ok? && layout == PageAligned ==> result.value.alignment == pageSize
    ensures result.Ok? && layout == Packed ==> result.value.alignment == 8
  {
    PowerOfTwoBits(pageSize);
    if layout == PageAligned && (pageSize == 0 || BitAnd(pageSize, pageSize - 1) != 0 || pageSize < HEADER_SIZE) {
      return Failed("page_size must be a power of two and at least the header's size");
    }
    assert PowerOfTwo(8) by { assert PowerOfTwo(4) && PowerOfTwo(2) && PowerOfTwo(1); }
    return Ok(Source(lists, rows, elementSize, if layout == PageAligned then pageSize else MIN_BLOCK_ALIGN));
  }

  // ---------------------------------------------------------------- payload facts

  lemma PayloadStep(rows: seq<Vector>, docs: seq<nat>, i: nat)
    requires DocsIn(docs, |rows|) && i < |docs|
    ensures Payload(rows, docs[..i + 1]) == Payload(rows, docs[..i]) + rows[docs[i]]
  {
    assert docs[..i + 1][..i] == docs[..i];
  }

  lemma {:induction false} PayloadGrows(rows: seq<Vector>, docs: seq<nat>, i: nat)
    requires DocsIn(docs, |rows|) && i <= |docs|
    ensures |Payload(rows, docs[..i])| <= |Payload(rows, docs)|
    decreases |docs| - i
  {
    if i < |docs| {
      PayloadStep(rows, docs, i);
      PayloadGrows(rows, docs, i + 1);
    } else {
      assert docs[..i] == docs;
    }
  }

  lemma {:induction false} PayloadStored(rows: seq<Vector>, docs: seq<nat>, elementSize: nat)
    requires DocsIn(docs, |rows|) && forall d :: 0 <= d < |rows| ==> Stored(rows[d], elementSize)
    ensures Stored(Payload(rows, docs), elementSize)
  {
    if docs != [] {
      PayloadStored(rows, docs[..|docs| - 1], elementSize);
    }
  }

  lemma {:induction false} FlatConcat(a: seq<seq<byte>>, b: seq<seq<byte>>)
    ensures Flat(a + b) == Flat(a) + Flat(b)
  {
    if b == [] {
      assert a + b == a;
    } else {
      assert (a + b)[..|a + b| - 1] == a + b[..|b| - 1];
      FlatConcat(a, b[..|b| - 1]);
    }
  }

  lemma TermsConcat(a: Vector, b: Vector)
    ensures TermBytes(a + b) == TermBytes(a) + TermBytes(b)
    ensures CodeBytes(a + b) == CodeBytes(a) + CodeBytes(b)
  {
    assert Ints(Terms(a + b), COMP_WIDTH) == Ints(Terms(a), COMP_WIDTH) + Ints(Terms(b), COMP_WIDTH);
    assert Codes(a + b) == Codes(a) + Codes(b);
    FlatConcat(Ints(Terms(a), COMP_WIDTH), Ints(Terms(b), COMP_WIDTH));
    FlatConcat(Codes(a), Codes(b));
  }

  /** The sizing arithmetic is the length of what is rendered. */
  lemma BlockLength(rows: seq<Vector>, docs: seq<nat>, elementSize: nat)
    requires DocsIn(docs, |rows|) && elementSize > 0 && Stored(Payload(rows, docs), elementSize)
    ensures |BlockBytes(rows, docs, elementSize)| == OffsetsFor(|docs|, |Payload(rows, docs)|, elementSize).end
    ensures |BlockHead(rows, docs)| == OffsetsFor(|docs|, |Payload(rows, docs)|, elementSize).comps
    ensures |TermBytes(Payload(rows, docs))| == COMP_WIDTH * |Payload(rows, docs)|
  {
    hide Payload;
    var payload := Payload(rows, docs);
    FlatLength(Ints(docs, 4), 4);
    FlatLength(Ints(Starts(rows, docs), 4), 4);
    FlatLength(Ints(Terms(payload), COMP_WIDTH), COMP_WIDTH);
    FlatLength(Codes(payload), elementSize);
  }

  // ---------------------------------------------------------------- counting and sizing

  /** Validates a block's documents and counts its components. */
  method CountBlock(docs: seq<nat>, rows: seq<Vector>) returns (totalNnz: Result<nat>)
    ensures totalNnz.Ok? <==> BlockWritable(docs, rows)
    ensures totalNnz.Ok? ==> totalNnz.value == |Payload(rows, docs)|
  {
    if |docs| > UINT32_MAX {
      return Failed("block has more than 2^32 docs");
    }
    var total := 0;
    for i := 0 to |docs|
      invariant DocsIn(docs[..i], |rows|) && total == |Payload(rows, docs[..i])| <= INT32_MAX
    {
      if docs[i] >= |rows| {
        return Failed("block references a doc id out of range");
      }
      assert docs[..i + 1][..i] == docs[..i];
      assert DocsIn(docs[..i + 1], |rows|);
      total := total + |rows[docs[i]]|;
      if total > INT32_MAX {
        if DocsIn(docs, |rows|) {
          PayloadGrows(rows, docs, i + 1);
        }
        return Failed("block total nnz exceeds INT32_MAX");
      }
    }
    assert docs[..|docs|] == docs;
    return Ok(total);
  }

  /** The blocks passed before block b of list pl. */
  ghost function Passed(lists: seq<seq<seq<nat>>>, pl: nat, b: nat): seq<Slot>
    requires pl < |lists| && b <= |lists[pl]|
  {
    SlotsOf(lists[..pl]) + ListSlots(pl, lists[pl])[..b]
  }

  lemma PassedStart(lists: seq<seq<seq<nat>>>, pl: nat)
    requires pl < |lists|
    ensures Passed(lists, pl, 0) == SlotsOf(lists[..pl])
    ensures Passed(lists, pl, |lists[pl]|) == SlotsOf(lists[..pl + 1])
  {
    assert lists[..pl + 1][..pl] == lists[..pl];
    assert ListSlots(pl, lists[pl])[..|lists[pl]|] == ListSlots(pl, lists[pl]);
  }

  lemma PassedStep(lists: seq<seq<seq<nat>>>, pl: nat, b: nat)
    requires pl < |lists| && b < |lists[pl]|
    ensures Passed(lists, pl, b + 1) == Passed(lists, pl, b) + [Slot(pl, b, lists[pl][b])]
  {
  }

  /** Slots of a prefix are a prefix of the slots. */
  lemma {:induction false} SlotsPrefix(lists: seq<seq<seq<nat>>>, pl: nat)
    requires pl <= |lists|
    ensures |SlotsOf(lists[..pl])| <= |SlotsOf(lists)| && SlotsOf(lists)[..|SlotsOf(lists[..pl])|] == SlotsOf(lists[..pl])
    decreases |lists|
  {
    if pl < |lists| {
      assert lists[..|lists| - 1][..pl] == lists[..pl];
      SlotsPrefix(lists[..|lists| - 1], pl);
    } else {
      assert lists[..pl] == lists;
    }
  }

  lemma PassedPrefix(lists: seq<seq<seq<nat>>>, pl: nat, b: nat)
    requires pl < |lists| && b <= |lists[pl]|
    ensures |Passed(lists, pl, b)| <= |SlotsOf(lists)| && SlotsOf(lists)[..|Passed(lists, pl, b)|] == Passed(lists, pl, b)
  {
    hide SlotsOf;
    PassedStart(lists, pl);
    SlotsPrefix(lists, pl + 1);
    var whole := Passed(lists, pl, |lists[pl]|);
    assert whole[..|Passed(lists, pl, b)|] == Passed(lists, pl, b);
    assert SlotsOf(lists)[..|whole|][..|Passed(lists, pl, b)|] == SlotsOf(lists)[..|Passed(lists, pl, b)|];
  }

  /** A block that cannot be written is one of the slots. */
  lemma BadBlock(src: Source, pl: nat, b: nat)
    requires pl < |src.lists| && b < |src.lists[pl]| && !BlockWritable(src.lists[pl][b], src.rows)
    ensures !Writable(src)
  {
    PassedPrefix(src.lists, pl, b + 1);
    PassedStep(src.lists, pl, b);
    var at := |Passed(src.lists, pl, b)|;
    assert SlotsOf(src.lists)[..at + 1][at] == SlotsOf(src.lists)[at];
  }

  lemma SlotsGrow(slots: seq<Slot>, slot: Slot, rows: seq<Vector>)
    requires SlotsWritable(slots, rows) && BlockWritable(slot.docs, rows)
    ensures SlotsWritable(slots + [slot], rows) && SlotsIn(slots, rows) && SlotsIn(slots + [slot], rows)
  {
    hide Payload;
  }

  /** One more block: where the next one starts. */
  lemma AreaStep(src: Source, slots: seq<Slot>, slot: Slot)
    requires ValidWidth(src.elementSize) && Typed(src) && SlotsIn(slots, src.rows) && SlotsIn(slots + [slot], src.rows)
    requires DocsIn(slot.docs, |src.rows|)
    ensures var used := FirstBlock(src.alignment) + |BlockArea(src, slots)|;
            var len := OffsetsFor(|slot.docs|, |Payload(src.rows, slot.docs)|, src.elementSize).end;
            && BlockArea(src, slots + [slot])
               == BlockArea(src, slots) + BlockBytes(src.rows, slot.docs, src.elementSize)
                  + Zeros(AlignUp(used + len, src.alignment) - (used + len))
            && |BlockBytes(src.rows, slot.docs, src.elementSize)| == len
            && FirstBlock(src.alignment) + |BlockArea(src, slots + [slot])| == AlignUp(used + len, src.alignment)
  {
    hide BlockBytes, Payload, AlignUp, FirstBlock, OffsetsFor;
    assert (slots + [slot])[..|slots|] == slots;
    PayloadStored(src.rows, slot.docs, src.elementSize);
    BlockLength(src.rows, slot.docs, src.elementSize);
  }

  lemma BodyLength(src: Source)
    requires Renderable(src)
    ensures |Body(src)| == BlockOffset(src, SlotsOf(src.lists), |SlotsOf(src.lists)|)
                           + ENTRY_SIZE * |SlotsOf(src.lists)| + TRAILER_SIZE
  {
    var slots := SlotsOf(src.lists);
    FlatLength(EntriesBytes(Directory(src, slots)), ENTRY_SIZE);
    assert slots[..|slots|] == slots;
  }

  /** The state of a walk over the blocks: all passed blocks were writable, the offset is theirs. */
  ghost predicate Sized(src: Source, slots: seq<Slot>, curOff: nat) {
    && src.elementSize > 0 && src.alignment > 0 && SlotsWritable(slots, src.rows) && SlotsIn(slots, src.rows)
    && curOff == FirstBlock(src.alignment) + |BlockArea(src, slots)|
  }

  lemma SizedStep(src: Source, pl: nat, b: nat, curOff: nat)
    requires pl < |src.lists| && b < |src.lists[pl]| && ValidWidth(src.elementSize) && Typed(src)
    requires Sized(src, Passed(src.lists, pl, b), curOff) && BlockWritable(src.lists[pl][b], src.rows)
    ensures var docs := src.lists[pl][b];
            var len := OffsetsFor(|docs|, |Payload(src.rows, docs)|, src.elementSize).end;
            Sized(src, Passed(src.lists, pl, b + 1), AlignUp(curOff + len, src.alignment))
  {
    hide Passed, BlockArea, SlotsWritable;
    PassedStep(src.lists, pl, b);
    SlotsGrow(Passed(src.lists, pl, b), Slot(pl, b, src.lists[pl][b]), src.rows);
    AreaStep(src, Passed(src.lists, pl, b), Slot(pl, b, src.lists[pl][b]));
  }

  lemma SizedStart(src: Source)
    requires ValidWidth(src.elementSize) && Typed(src)
    ensures src.elementSize > 0 && src.alignment > 0
    ensures SlotsOf(src.lists[..0]) == [] && Sized(src, SlotsOf(src.lists[..0]), FirstBlock(src.alignment))
  {
  }

  lemma SizedEnd(src: Source, curOff: nat)
    requires ValidWidth(src.elementSize) && Sized(src, SlotsOf(src.lists), curOff)
    ensures Writable(src) && Renderable(src)
    ensures curOff == BlockOffset(src, SlotsOf(src.lists), |SlotsOf(src.lists)|)
  {
    var slots := SlotsOf(src.lists);
    assert slots[..|slots|] == slots;
  }

  /** Byte length of the body, without touching the payload. */
  method SectionLength(src: Source) returns (length: Result<nat>)
    requires Typed(src)
    ensures length.Ok? <==> Writable(src)
    ensures length.Ok? ==> Renderable(src) && length.value == |Body(src)|
  {
    hide Writable, Sized, Typed, BlockWritable, Passed, SlotsOf;
    if !ValidWidth(src.elementSize) {
      BadWidth(src);
      return Failed("element_size must be 1, 2, or 4");
    }
    SizedStart(src);
    var curOff: nat, nBlocks := AlignUp(HEADER_SIZE, src.alignment), 0;
    for pl := 0 to |src.lists|
      invariant Sized(src, SlotsOf(src.lists[..pl]), curOff) && nBlocks == |SlotsOf(src.lists[..pl])|
    {
      PassedStart(src.lists, pl);
      for b := 0 to |src.lists[pl]|
        invariant Sized(src, Passed(src.lists, pl, b), curOff) && nBlocks == |Passed(src.lists, pl, b)|
      {
        var docs := src.lists[pl][b];
        var totalNnz := CountBlock(docs, src.rows);
        if totalNnz.Failed? {
          BadBlock(src, pl, b);
          return Failed(totalNnz.reason);
        }
        SizedStep(src, pl, b, curOff);
        PassedStep(src.lists, pl, b);
        curOff := AlignUp(curOff + OffsetsFor(|docs|, totalNnz.value, src.elementSize).end, src.alignment);
        nBlocks := nBlocks + 1;
      }
    }
    assert src.lists[..|src.lists|] == src.lists;
    SizedEnd(src, curOff);
    BodyLength(src);
    return Ok(curOff + nBlocks * ENTRY_SIZE + TRAILER_SIZE);
  }

  lemma BadWidth(src: Source)
    requires !ValidWidth(src.elementSize)
    ensures !Writable(src)
  {
  }

  // ---------------------------------------------------------------- streaming the body

  /** The within-block offsets. */
  method BuildOffsets(docs: seq<nat>, rows: seq<Vector>) returns (offsets: seq<nat>)
    requires DocsIn(docs, |rows|)
    ensures offsets == Starts(rows, docs)
  {
    offsets := [0];
    var running := 0;
    for i := 0 to |docs|
      invariant |offsets| == i + 1 && running == |Payload(rows, docs[..i])|
      invariant forall j :: 0 <= j <= i ==> offsets[j] == |Payload(rows, docs[..j])|
    {
      PayloadStep(rows, docs, i);
      running := running + |rows[docs[i]]|;
      offsets := offsets + [running];
    }
  }

  /** The bytes of one more document follow those of the documents before it. */
  lemma PayloadBytesStep(rows: seq<Vector>, docs: seq<nat>, i: nat)
    requires DocsIn(docs, |rows|) && i < |docs|
    ensures TermBytes(Payload(rows, docs[..i + 1])) == TermBytes(Payload(rows, docs[..i])) + TermBytes(rows[docs[i]])
    ensures CodeBytes(Payload(rows, docs[..i + 1])) == CodeBytes(Payload(rows, docs[..i])) + CodeBytes(rows[docs[i]])
    ensures rows[docs[i]] == [] ==> TermBytes(rows[docs[i]]) == [] && CodeBytes(rows[docs[i]]) == []
  {
    hide Payload;
    PayloadStep(rows, docs, i);
    TermsConcat(Payload(rows, docs[..i]), rows[docs[i]]);
  }

  lemma NoPayload(rows: seq<Vector>, docs: seq<nat>)
    requires DocsIn(docs, |rows|) && docs == []
    ensures TermBytes(Payload(rows, docs)) == [] && CodeBytes(Payload(rows, docs)) == []
  {
  }

  /** Every document's terms, in block order. */
  method WriteTerms(docs: seq<nat>, rows: seq<Vector>, writer: IOWriter)
    requires DocsIn(docs, |rows|)
    modifies writer
    ensures writer.bytes == old(writer.bytes) + TermBytes(Payload(rows, docs))
  {
    hide TermBytes, Payload;
    NoPayload(rows, docs[..0]);
    for i := 0 to |docs|
      invariant writer.bytes == old(writer.bytes) + TermBytes(Payload(rows, docs[..i]))
    {
      PayloadBytesStep(rows, docs, i);
      if |rows[docs[i]]| > 0 {
        WriteRowTerms(rows[docs[i]], writer);
      }
    }
    assert docs[..|docs|] == docs;
  }

  method WriteRowTerms(row: Vector, writer: IOWriter)
    modifies writer
    ensures writer.bytes == old(writer.bytes) + TermBytes(row)
  {
    writer.Write(Flat(Ints(Terms(row), COMP_WIDTH)));
  }

  /** Every document's value bytes, in block order. */
  method WriteValues(docs: seq<nat>, rows: seq<Vector>, writer: IOWriter)
    requires DocsIn(docs, |rows|)
    modifies writer
    ensures writer.bytes == old(writer.bytes) + CodeBytes(Payload(rows, docs))
  {
    hide CodeBytes, Payload;
    NoPayload(rows, docs[..0]);
    for i := 0 to |docs|
      invariant writer.bytes == old(writer.bytes) + CodeBytes(Payload(rows, docs[..i]))
    {
      PayloadBytesStep(rows, docs, i);
      if |rows[docs[i]]| > 0 {
        WriteRowValues(rows[docs[i]], writer);
      }
    }
    assert docs[..|docs|] == docs;
  }

  method WriteRowValues(row: Vector, writer: IOWriter)
    modifies writer
    ensures writer.bytes == old(writer.bytes) + CodeBytes(row)
  {
    writer.Write(Flat(Codes(row)));
  }

  method WriteBlock(docs: seq<nat>, rows: seq<Vector>, elementSize: nat, writer: IOWriter) returns (len: nat)
    requires DocsIn(docs, |rows|) && elementSize > 0 && forall d :: 0 <= d < |rows| ==> Stored(rows[d], elementSize)
    modifies writer
    ensures writer.bytes == old(writer.bytes) + BlockBytes(rows, docs, elementSize)
    ensures len == |BlockBytes(rows, docs, elementSize)|
  {
    hide Payload, Stored, BlockHead, TermBytes, CodeBytes, OffsetsFor;
    PayloadStored(rows, docs, elementSize);
    BlockLength(rows, docs, elementSize);
    var offsets := BuildOffsets(docs, rows);
    var totalNnz := offsets[|docs|];
    assert docs[..|docs|] == docs;
    var layout := OffsetsFor(|docs|, totalNnz, elementSize);
    WriteHead(docs, offsets, rows, writer);
    WriteTerms(docs, rows, writer);
    var valsPad := layout.vals - (layout.comps + totalNnz * COMP_WIDTH);
    if valsPad > 0 {
      writer.Write(Zeros(valsPad));
    }
    assert writer.bytes == old(writer.bytes) + (BlockHead(rows, docs) + TermBytes(Payload(rows, docs)) + Zeros(valsPad));
    WriteValues(docs, rows, writer);
    len := layout.end;
  }

  method WriteHead(docs: seq<nat>, offsets: seq<nat>, ghost rows: seq<Vector>, writer: IOWriter)
    requires DocsIn(docs, |rows|) && offsets == Starts(rows, docs)
    modifies writer
    ensures writer.bytes == old(writer.bytes) + BlockHead(rows, docs)
  {
    hide LE, Flat, Ints, Starts;
    writer.Write(LE(|docs|, 4));
    if |docs| > 0 {
      writer.Write(Flat(Ints(docs, 4)));
    } else {
      NoIds(docs);
    }
    writer.Write(Flat(Ints(offsets, 4)));
    assert writer.bytes == old(writer.bytes) + (LE(|docs|, 4) + Flat(Ints(docs, 4)) + Flat(Ints(offsets, 4)));
  }

  lemma NoIds(docs: seq<nat>)
    requires docs == []
    ensures Flat(Ints(docs, 4)) == []
  {
  }

  /** What has been streamed after the passed blocks: the body up to there, and its directory. */
  ghost predicate Streamed(src: Source, slots: seq<Slot>, curOff: nat, nBlocks: nat, written: seq<byte>, entries: seq<DirEntry>) {
    && Sized(src, slots, curOff)
    && written == Front(src, nBlocks) + BlockArea(src, slots)
    && entries == Directory(src, slots)
  }

  lemma DirectoryStep(src: Source, slots: seq<Slot>, slot: Slot)
    requires src.elementSize > 0 && src.alignment > 0 && SlotsIn(slots, src.rows) && SlotsIn(slots + [slot], src.rows)
    requires DocsIn(slot.docs, |src.rows|)
    ensures var entry := DirEntry(slot.pl, slot.block, FirstBlock(src.alignment) + |BlockArea(src, slots)|,
                                  |BlockBytes(src.rows, slot.docs, src.elementSize)|, |slot.docs|);
            Directory(src, slots + [slot]) == Directory(src, slots) + [entry]
  {
    hide BlockArea, BlockBytes, FirstBlock;
    var grown := slots + [slot];
    assert grown[..|slots|] == slots;
    forall i | 0 <= i < |slots|
      ensures EntryFor(src, grown, i) == EntryFor(src, slots, i)
    {
      assert grown[..i] == slots[..i];
    }
  }

  /** Streaming one more block and its padding. */
  lemma StreamStep(src: Source, pl: nat, b: nat, curOff: nat, nBlocks: nat, written: seq<byte>, entries: seq<DirEntry>, pad: nat)
    requires pl < |src.lists| && b < |src.lists[pl]| && ValidWidth(src.elementSize) && Typed(src)
    requires Streamed(src, Passed(src.lists, pl, b), curOff, nBlocks, written, entries)
    requires BlockWritable(src.lists[pl][b], src.rows)
    ensures var docs := src.lists[pl][b];
            var block := BlockBytes(src.rows, docs, src.elementSize);
            var next := AlignUp(curOff + |block|, src.alignment);
            pad == next - (curOff + |block|) ==>
              Streamed(src, Passed(src.lists, pl, b + 1), next, nBlocks, written + block + Zeros(pad),
                       entries + [DirEntry(pl, b, curOff, |block|, |docs|)])
  {
    hide Passed, BlockArea, SlotsWritable, BlockBytes, FirstBlock, AlignUp;
    var slots, slot := Passed(src.lists, pl, b), Slot(pl, b, src.lists[pl][b]);
    PassedStep(src.lists, pl, b);
    SlotsGrow(slots, slot, src.rows);
    AreaStep(src, slots, slot);
    DirectoryStep(src, slots, slot);
  }

  lemma StreamStart(src: Source, nBlocks: nat)
    requires ValidWidth(src.elementSize) && Typed(src)
    ensures src.elementSize > 0 && src.alignment > 0
    ensures SlotsOf(src.lists[..0]) == []
    ensures Streamed(src, SlotsOf(src.lists[..0]), FirstBlock(src.alignment), nBlocks, Front(src, nBlocks), [])
  {
  }

  lemma StreamEnd(src: Source, curOff: nat, written: seq<byte>, entries: seq<DirEntry>)
    requires ValidWidth(src.elementSize)
    requires Streamed(src, SlotsOf(src.lists), curOff, |SlotsOf(src.lists)|, written, entries)
    ensures Writable(src) && Renderable(src) && |entries| == |SlotsOf(src.lists)|
    ensures written + Flat(EntriesBytes(entries)) + TrailerBytes(curOff, |entries|, |src.lists|) == Body(src)
  {
    SizedEnd(src, curOff);
  }

  method CountBlocks(lists: seq<seq<seq<nat>>>) returns (n: nat)
    ensures n == |SlotsOf(lists)|
  {
    n := 0;
    for pl := 0 to |lists|
      invariant n == |SlotsOf(lists[..pl])|
    {
      assert lists[..pl + 1][..pl] == lists[..pl];
      n := n + |lists[pl]|;
    }
    assert lists[..|lists|] == lists;
  }

  /** Validates, writes and pads one block, and names it in the directory. */
  method WriteNext(src: Source, pl: nat, b: nat, curOff: nat, ghost nBlocks: nat, ghost written: seq<byte>,
                   ghost entries: seq<DirEntry>, writer: IOWriter) returns (entry: Result<DirEntry>, ghost added: seq<byte>)
    requires pl < |src.lists| && b < |src.lists[pl]| && ValidWidth(src.elementSize) && Typed(src) && src.alignment > 0
    requires Streamed(src, Passed(src.lists, pl, b), curOff, nBlocks, written, entries)
    modifies writer
    ensures entry.Ok? <==> BlockWritable(src.lists[pl][b], src.rows)
    ensures writer.bytes == old(writer.bytes) + added
    ensures entry.Ok? ==>
              Streamed(src, Passed(src.lists, pl, b + 1), AlignUp(curOff + entry.value.len, src.alignment), nBlocks,
                       written + added, entries + [entry.value])
  {
    hide Streamed, Typed, BlockWritable, Passed, BlockBytes;
    var docs := src.lists[pl][b];
    var totalNnz := CountBlock(docs, src.rows);
    if totalNnz.Failed? {
      return Failed(totalNnz.reason), [];
    }
    TypedParts(src, docs);
    var len := WriteBlock(docs, src.rows, src.elementSize, writer);
    var padded: nat := AlignUp(curOff + len, src.alignment);
    if padded > curOff + len {
      writer.Write(Zeros(padded - (curOff + len)));
    }
    StreamStep(src, pl, b, curOff, nBlocks, written, entries, padded - (curOff + len));
    added := BlockBytes(src.rows, docs, src.elementSize) + Zeros(padded - (curOff + len));
    assert written + added == written + BlockBytes(src.rows, docs, src.elementSize) + Zeros(padded - (curOff + len));
    return Ok(DirEntry(pl, b, curOff, len, |docs|)), added;
  }

  /** Streams every block; `entries` is their directory. */
  method WriteBlocks(src: Source, ghost nBlocks: nat, writer: IOWriter)
    returns (result: Result<(nat, seq<DirEntry>)>, ghost added: seq<byte>)
    requires ValidWidth(src.elementSize) && Typed(src)
    modifies writer
    ensures result.Failed? ==> !Writable(src)
    ensures result.Ok? ==>
              writer.bytes == old(writer.bytes) + added && src.alignment > 0
              && Streamed(src, SlotsOf(src.lists), result.value.0, nBlocks, Front(src, nBlocks) + added, result.value.1)
  {
    hide Writable, Streamed, Typed, BlockWritable, Passed, SlotsOf, BlockBytes, Front;
    StreamStart(src, nBlocks);
    ghost var written := Front(src, nBlocks);
    added := [];
    assert written + added == written;
    var curOff: nat := AlignUp(HEADER_SIZE, src.alignment);
    var entries: seq<DirEntry> := [];
    for pl := 0 to |src.lists|
      invariant writer.bytes == old(writer.bytes) + added
      invariant Streamed(src, SlotsOf(src.lists[..pl]), curOff, nBlocks, written + added, entries)
    {
      PassedStart(src.lists, pl);
      for b := 0 to |src.lists[pl]|
        invariant writer.bytes == old(writer.bytes) + added
        invariant Streamed(src, Passed(src.lists, pl, b), curOff, nBlocks, written + added, entries)
      {
        var entry, more := WriteNext(src, pl, b, curOff, nBlocks, written + added, entries, writer);
        if entry.Failed? {
          BadBlock(src, pl, b);
          return Failed(entry.reason), added;
        }
        assert (written + added) + more == written + (added + more);
        added := added + more;
        entries := entries + [entry.value];
        curOff := AlignUp(curOff + entry.value.len, src.alignment);
      }
    }
    assert src.lists[..|src.lists|] == src.lists;
    return Ok((curOff, entries)), added;
  }

  /** Streams header, blocks, directory and trailer. */
  method WriteBody(src: Source, writer: IOWriter) returns (ok: bool)
    requires Typed(src)
    modifies writer
    ensures ok <==> Writable(src)
    ensures ok ==> Renderable(src) && writer.bytes == old(writer.bytes) + Body(src)
  {
    hide Writable, Streamed, Typed, SlotsOf, Body, Front, Flat, EntriesBytes, TrailerBytes, SlotsIn, AlignUp;
    ghost var was := writer.bytes;
    if !ValidWidth(src.elementSize) {
      BadWidth(src);
      return false;
    }
    var nBlocks := CountBlocks(src.lists);
    StreamStart(src, nBlocks);
    WriteFront(src, nBlocks, writer);
    var blocks, added := WriteBlocks(src, nBlocks, writer);
    if blocks.Failed? {
      return false;
    }
    var curOff, entries := blocks.value.0, blocks.value.1;
    StreamEnd(src, curOff, Front(src, nBlocks) + added, entries);
    WriteTail(entries, curOff, |src.lists|, writer);
    assert writer.bytes == was + (Front(src, nBlocks) + added + Flat(EntriesBytes(entries)) + TrailerBytes(curOff, |entries|, |src.lists|));
    return true;
  }

  /** Directory, then trailer. */
  method WriteTail(entries: seq<DirEntry>, dirOffset: nat, nLists: nat, writer: IOWriter)
    modifies writer
    ensures writer.bytes == old(writer.bytes) + Flat(EntriesBytes(entries)) + TrailerBytes(dirOffset, |entries|, nLists)
  {
    if entries != [] {
      writer.Write(Flat(EntriesBytes(entries)));
    }
    writer.Write(TrailerBytes(dirOffset, |entries|, nLists));
  }

  lemma TypedParts(src: Source, docs: seq<nat>)
    requires Typed(src) && BlockWritable(docs, src.rows)
    ensures forall d :: 0 <= d < |src.rows| ==> Stored(src.rows[d], src.elementSize)
    ensures DocsIn(docs, |src.rows|)
  {
  }

  method WriteFront(src: Source, nBlocks: nat, writer: IOWriter)
    requires src.alignment > 0
    modifies writer
    ensures writer.bytes == old(writer.bytes) + Front(src, nBlocks)
  {
    writer.Write(HeaderBytes(src.elementSize, nBlocks, src.alignment));
    var headerPad := AlignUp(HEADER_SIZE, src.alignment) - HEADER_SIZE;
    if headerPad > 0 {
      writer.Write(Zeros(headerPad));
    }
  }

  /** The section at a stream offset: padding, the length prefix, the body. */
  ghost function SectionAt(src: Source, pos: nat): seq<byte>
    requires Renderable(src)
  {
    Zeros(PaddingFor(pos, MIN_BLOCK_ALIGN).value) + LE(|Body(src)|, 8) + Body(src)
  }

  /**
   * Writes the section at the stream's position. The length prefix always equals what the body
   * then writes, so the final check cannot fire (for a length that fits its 64-bit field).
   */
  method Serialize(src: Source, writer: IOWriter) returns (ok: bool)
    requires Typed(src)
    modifies writer
    ensures ok <==> Writable(src)
    ensures ok ==> Renderable(src) && writer.bytes == old(writer.bytes) + SectionAt(src, |old(writer.bytes)|)
  {
    hide Writable, Typed, Body, PaddingFor;
    var _ := writer.PadTo(MIN_BLOCK_ALIGN);
    var sectionLen := SectionLength(src);
    if sectionLen.Failed? {
      return false;
    }
    writer.Write(LE(sectionLen.value, 8));
    var bodyStart := writer.Pos();
    var written := WriteBody(src, writer);
    if !written {
      return false;
    }
    if writer.Pos() - bodyStart != sectionLen.value {
      return false;
    }
    return true;
  }
}
