/** What the writer wrote, the mapped reader accepts and reads back: blocks, documents, vectors. */
module InlineRoundTrip {
  import opened Bytes
  import opened Align
  import opened InlineFormat
  import opened InlineWriter
  import opened InlineReader

  /**
   * The source's types: page sizes are powers of two, document ids are 31-bit, block numbers 32-bit,
   * and the section's length is a 64-bit number.
   */
  ghost predicate Sizes(src: Source) {
    && Typed(src) && Writable(src) && Renderable(src)
    && PowerOfTwo(src.alignment) && src.alignment >= MIN_BLOCK_ALIGN
    && |src.rows| <= INT32_MAX + 1
    && (forall pl :: 0 <= pl < |src.lists| ==> |src.lists[pl]| <= UINT32_RANGE)
    && |src.lists| < Pow256(4)
    && |Body(src)| < Pow256(8)
  }

  // ---------------------------------------------------------------- where things are

  lemma MultipleOfEight(x: nat, a: nat)
    requires a > 0 && a % 8 == 0 && x % a == 0
    ensures x % 8 == 0
  {
    var q, p := x / a, a / 8;
    assert x == a * q && a == 8 * p;
    assert x == 8 * (p * q);
    DivideUnique(x, 8, p * q, 0);
  }

  /** Blocks start on the alignment. */
  lemma {:induction false} OffsetAligned(src: Source, slots: seq<Slot>, i: nat)
    requires src.elementSize > 0 && src.alignment > 0 && SlotsIn(slots, src.rows) && i <= |slots|
    ensures BlockOffset(src, slots, i) % src.alignment == 0
  {
    hide BlockBytes;
    if i > 0 {
      assert slots[..i][..i - 1] == slots[..i - 1];
      var used := |BlockArea(src, slots[..i - 1])| + |BlockBytes(src.rows, slots[i - 1].docs, src.elementSize)|;
      assert BlockOffset(src, slots, i) == AlignUp(FirstBlock(src.alignment) + used, src.alignment);
    }
  }

  /** Block i sits at its offset within the blocks. */
  lemma {:induction false} AreaHas(src: Source, slots: seq<Slot>, i: nat)
    requires src.elementSize > 0 && src.alignment > 0 && SlotsIn(slots, src.rows) && i < |slots|
    ensures HasAt(BlockArea(src, slots), |BlockArea(src, slots[..i])|, BlockBytes(src.rows, slots[i].docs, src.elementSize))
  {
    hide BlockBytes, TrailingPad;
    var init, last := slots[..|slots| - 1], slots[|slots| - 1];
    var before, block := BlockArea(src, init), BlockBytes(src.rows, last.docs, src.elementSize);
    var pad := Zeros(TrailingPad(src, |before| + |block|));
    if i < |init| {
      assert init[..i] == slots[..i];
      AreaHas(src, init, i);
      HasMiddle([], before, block + pad);
      assert [] + before + (block + pad) == BlockArea(src, slots);
      HasInner(BlockArea(src, slots), 0, before, |BlockArea(src, slots[..i])|, BlockBytes(src.rows, slots[i].docs, src.elementSize));
    } else {
      HasMiddle(before, block, pad);
    }
  }

  /** The parts of a body and their places. */
  lemma BodyParts(src: Source)
    requires Renderable(src)
    ensures var slots, body := SlotsOf(src.lists), Body(src);
            var dirOffset := BlockOffset(src, slots, |slots|);
            && HasAt(body, 0, HeaderBytes(src.elementSize, |slots|, src.alignment))
            && HasAt(body, FirstBlock(src.alignment), BlockArea(src, slots))
            && HasAt(body, dirOffset, Flat(EntriesBytes(Directory(src, slots))))
            && |body| == dirOffset + ENTRY_SIZE * |slots| + TRAILER_SIZE
            && HasAt(body, |body| - TRAILER_SIZE, TrailerBytes(dirOffset, |slots|, |src.lists|))
            && HEADER_SIZE <= FirstBlock(src.alignment) <= dirOffset
  {
    hide BlockArea, Directory, FirstBlock, HeaderBytes, TrailerBytes, SlotsOf, EntriesBytes, Flat;
    var slots := SlotsOf(src.lists);
    var first := FirstBlock(src.alignment);
    var header, headPad := HeaderBytes(src.elementSize, |slots|, src.alignment), Zeros(FirstHeaderPad(src));
    var area, dir := BlockArea(src, slots), Flat(EntriesBytes(Directory(src, slots)));
    assert slots[..|slots|] == slots;
    var trailer := TrailerBytes(BlockOffset(src, slots, |slots|), |slots|, |src.lists|);
    BodyLength(src);
    assert Body(src) == header + headPad + area + dir + trailer;
    HasMiddle([], header, headPad + area + dir + trailer);
    assert Body(src) == [] + header + (headPad + area + dir + trailer);
    HasMiddle(header + headPad, area, dir + trailer);
    assert Body(src) == (header + headPad) + area + (dir + trailer);
    HasMiddle(header + headPad + area, dir, trailer);
    HasMiddle(header + headPad + area + dir, trailer, []);
    assert Body(src) == (header + headPad + area + dir) + trailer + [];
  }

  ghost function FirstHeaderPad(src: Source): (n: nat)
    requires src.alignment > 0
    ensures n + HEADER_SIZE == FirstBlock(src.alignment)
  {
    FirstBlock(src.alignment) - HEADER_SIZE
  }

  // ---------------------------------------------------------------- the fixed records read back

  lemma HeaderReads(b: seq<byte>, elementSize: nat, nBlocks: nat, alignment: nat)
    requires HasAt(b, 0, HeaderBytes(elementSize, nBlocks, alignment))
    requires elementSize < Pow256(4) && nBlocks < Pow256(8) && alignment < Pow256(8)
    ensures |b| >= HEADER_SIZE && ReadHeader(b) == Header(elementSize, nBlocks, alignment)
  {
    hide Pow256, LE;
    var h := HeaderBytes(elementSize, nBlocks, alignment);
    HasMiddle([], LE(elementSize, 4), Zeros(4) + LE(nBlocks, 8) + LE(alignment, 8));
    assert h == [] + LE(elementSize, 4) + (Zeros(4) + LE(nBlocks, 8) + LE(alignment, 8));
    HasMiddle(LE(elementSize, 4) + Zeros(4), LE(nBlocks, 8), LE(alignment, 8));
    HasMiddle(LE(elementSize, 4) + Zeros(4) + LE(nBlocks, 8), LE(alignment, 8), []);
    assert h == LE(elementSize, 4) + Zeros(4) + LE(nBlocks, 8) + LE(alignment, 8) + [];
    FieldReads(b, 0, h, 0, elementSize, 4);
    FieldReads(b, 0, h, 8, nBlocks, 8);
    FieldReads(b, 0, h, 16, alignment, 8);
  }

  lemma FieldReads(b: seq<byte>, at: nat, record: seq<byte>, inner: nat, x: nat, n: nat)
    requires HasAt(b, at, record) && HasAt(record, inner, LE(x, n)) && x < Pow256(n)
    ensures at + inner + n <= |b| && ReadAt(b, at + inner, n) == x
  {
    HasInner(b, at, record, inner, LE(x, n));
    ReadsScalar(b, at + inner, x, n);
  }

  lemma TrailerReads(b: seq<byte>, dirOffset: nat, nEntries: nat, nLists: nat)
    requires |b| >= TRAILER_SIZE && HasAt(b, |b| - TRAILER_SIZE, TrailerBytes(dirOffset, nEntries, nLists))
    requires dirOffset < Pow256(8) && nEntries < Pow256(8) && nLists < Pow256(8)
    ensures ReadTrailer(b) == Trailer(dirOffset, nEntries, nLists)
  {
    hide Pow256, LE;
    var t, at := TrailerBytes(dirOffset, nEntries, nLists), |b| - TRAILER_SIZE;
    HasMiddle([], LE(dirOffset, 8), LE(nEntries, 8) + LE(nLists, 8));
    assert t == [] + LE(dirOffset, 8) + (LE(nEntries, 8) + LE(nLists, 8));
    HasMiddle(LE(dirOffset, 8), LE(nEntries, 8), LE(nLists, 8));
    HasMiddle(LE(dirOffset, 8) + LE(nEntries, 8), LE(nLists, 8), []);
    assert t == LE(dirOffset, 8) + LE(nEntries, 8) + LE(nLists, 8) + [];
    FieldReads(b, at, t, 0, dirOffset, 8);
    FieldReads(b, at, t, 8, nEntries, 8);
    FieldReads(b, at, t, 16, nLists, 8);
  }

  ghost predicate EntryFits(e: DirEntry) {
    e.pl < Pow256(4) && e.block < Pow256(4) && e.byteOff < Pow256(8) && e.len < Pow256(8) && e.nDocs < Pow256(4)
  }

  lemma EntryReads(b: seq<byte>, at: nat, e: DirEntry)
    requires HasAt(b, at, EntryBytes(e)) && EntryFits(e)
    ensures at + ENTRY_SIZE <= |b| && ReadEntry(b, at) == e
  {
    hide Pow256, LE, EntryBytes, HasAt;
    var x := EntryBytes(e);
    EntryPieces(e);
    FieldReads(b, at, x, 0, e.pl, 4);
    FieldReads(b, at, x, 4, e.block, 4);
    FieldReads(b, at, x, 8, e.byteOff, 8);
    FieldReads(b, at, x, 16, e.len, 8);
    FieldReads(b, at, x, 24, e.nDocs, 4);
    InBounds(b, at, x);
  }

  lemma InBounds(b: seq<byte>, at: nat, part: seq<byte>)
    requires HasAt(b, at, part)
    ensures at + |part| <= |b|
  {
  }

  lemma EntryPieces(e: DirEntry)
    ensures var x := EntryBytes(e);
            && HasAt(x, 0, LE(e.pl, 4)) && HasAt(x, 4, LE(e.block, 4)) && HasAt(x, 8, LE(e.byteOff, 8))
            && HasAt(x, 16, LE(e.len, 8)) && HasAt(x, 24, LE(e.nDocs, 4))
  {
    hide LE;
    var p1, p2, p3, p4, p5, p6 := LE(e.pl, 4), LE(e.block, 4), LE(e.byteOff, 8), LE(e.len, 8), LE(e.nDocs, 4), LE(0, 4);
    var x := EntryBytes(e);
    assert x == p1 + p2 + p3 + p4 + p5 + p6;
    assert x[0..4] == p1 && x[4..8] == p2 && x[8..16] == p3 && x[16..24] == p4 && x[24..28] == p5;
  }

  // ---------------------------------------------------------------- slots and their numbering

  /** Where list pl's slots start. */
  ghost function SlotStart(lists: seq<seq<seq<nat>>>, pl: nat): nat
    requires pl <= |lists|
  {
    |SlotsOf(lists[..pl])|
  }

  /** Slot SlotStart(pl) + b is block b of list pl. */
  lemma SlotAt(lists: seq<seq<seq<nat>>>, pl: nat, b: nat)
    requires pl < |lists| && b < |lists[pl]|
    ensures SlotStart(lists, pl) + b < |SlotsOf(lists)|
    ensures SlotsOf(lists)[SlotStart(lists, pl) + b] == Slot(pl, b, lists[pl][b])
  {
    PassedPrefix(lists, pl, b + 1);
    PassedStep(lists, pl, b);
    var at := SlotStart(lists, pl) + b;
    assert |Passed(lists, pl, b)| == at;
    assert SlotsOf(lists)[..at + 1][at] == SlotsOf(lists)[at];
  }

  lemma StartNext(lists: seq<seq<seq<nat>>>, pl: nat)
    requires pl < |lists|
    ensures SlotStart(lists, pl + 1) == SlotStart(lists, pl) + |lists[pl]|
  {
    assert lists[..pl + 1][..pl] == lists[..pl];
  }

  /** Every slot is some block of some list. */
  lemma {:induction false} SlotOrigin(lists: seq<seq<seq<nat>>>, i: nat)
    requires i < |SlotsOf(lists)|
    ensures SlotsOf(lists)[i].pl < |lists|
    ensures var s := SlotsOf(lists)[i]; s.block < |lists[s.pl]| && s.docs == lists[s.pl][s.block]
    ensures SlotsOf(lists)[i].block == if i > 0 && SlotsOf(lists)[i - 1].pl == SlotsOf(lists)[i].pl
                                       then SlotsOf(lists)[i - 1].block + 1 else 0
    ensures i > 0 ==> SlotsOf(lists)[i - 1].pl <= SlotsOf(lists)[i].pl
  {
    var init := lists[..|lists| - 1];
    var before := SlotsOf(init);
    if i < |before| {
      SlotOrigin(init, i);
    } else if |before| > 0 {
      SlotOrigin(init, |before| - 1);
    }
  }

  /** The directory's counts are the slots' starts. */
  lemma {:induction false} CountIsStart(entries: seq<DirEntry>, lists: seq<seq<seq<nat>>>, pl: nat)
    requires |entries| == |SlotsOf(lists)| && pl <= |lists|
    requires forall i :: 0 <= i < |entries| ==> entries[i].pl == SlotsOf(lists)[i].pl
    ensures CountBelow(entries, pl) == SlotStart(lists, pl)
    decreases |lists|
  {
    if lists == [] {
      assert lists[..pl] == [];
    } else {
      var init := lists[..|lists| - 1];
      var n, last := |SlotsOf(init)|, |lists| - 1;
      assert forall i :: n <= i < |entries| ==> entries[i].pl == last;
      assert forall i :: 0 <= i < n ==> entries[..n][i].pl == SlotsOf(init)[i].pl;
      if pl <= last {
        assert init[..pl] == lists[..pl];
        CountIsStart(entries[..n], init, pl);
        CountTail(entries, n, pl);
      } else {
        assert init[..last] == init && lists[..pl] == lists;
        AllBelow(entries, lists, pl);
      }
    }
  }

  lemma {:induction false} CountTail(entries: seq<DirEntry>, n: nat, pl: nat)
    requires n <= |entries| && forall i :: n <= i < |entries| ==> entries[i].pl >= pl
    ensures CountBelow(entries, pl) == CountBelow(entries[..n], pl)
    decreases |entries|
  {
    if n < |entries| {
      assert entries[..|entries| - 1][..n] == entries[..n];
      CountTail(entries[..|entries| - 1], n, pl);
    } else {
      assert entries[..n] == entries;
    }
  }

  lemma {:induction false} CountAll(entries: seq<DirEntry>, pl: nat)
    requires forall i :: 0 <= i < |entries| ==> entries[i].pl < pl
    ensures CountBelow(entries, pl) == |entries|
  {
    if entries != [] {
      CountAll(entries[..|entries| - 1], pl);
    }
  }

  lemma AllBelow(entries: seq<DirEntry>, lists: seq<seq<seq<nat>>>, pl: nat)
    requires |entries| == |SlotsOf(lists)| && pl == |lists|
    requires forall i :: 0 <= i < |entries| ==> entries[i].pl == SlotsOf(lists)[i].pl
    ensures CountBelow(entries, pl) == |entries|
  {
    forall i | 0 <= i < |entries|
      ensures entries[i].pl < pl
    {
      SlotOrigin(lists, i);
    }
    CountAll(entries, pl);
  }

  // ---------------------------------------------------------------- a written section is accepted

  lemma AlignmentFits(offset: nat, a: nat)
    requires a > 0 && offset > 0
    ensures a <= AlignUp(offset, a)
  {
    var up := AlignUp(offset, a);
    assert up == a * (up / a);
    if up / a > 0 {
      WithinRows(a, 0, up / a);
    }
  }

  /** Every directory entry is in bounds and fits its fields. */
  lemma EntryInBounds(src: Source, i: nat)
    requires Sizes(src) && i < |SlotsOf(src.lists)|
    ensures var slots := SlotsOf(src.lists);
            var e := EntryFor(src, slots, i);
            EntryFits(e) && EntryOk(e, |src.lists|, BlockOffset(src, slots, |slots|))
  {
    hide BlockArea, BlockBytes, Typed, Body, SlotsOf, Writable, FirstBlock;
    var slots := SlotsOf(src.lists);
    PowValues();
    SlotOrigin(src.lists, i);
    AreaHas(src, slots, i);
    BodyParts(src);
    BlockFits(src, i);
    EntryAligned(src, i);
    assert slots[..|slots|] == slots;
  }

  lemma EntryAligned(src: Source, i: nat)
    requires Sizes(src) && i < |SlotsOf(src.lists)|
    ensures BlockOffset(src, SlotsOf(src.lists), i) % MIN_BLOCK_ALIGN == 0
  {
    hide BlockOffset, Typed, Body, SlotsOf, Writable;
    OffsetAligned(src, SlotsOf(src.lists), i);
    PowerOfTwoMultiple(src.alignment);
    MultipleOfEight(BlockOffset(src, SlotsOf(src.lists), i), src.alignment);
  }

  lemma BlockFits(src: Source, i: nat)
    requires Sizes(src) && i < |SlotsOf(src.lists)|
    ensures var docs := SlotsOf(src.lists)[i].docs;
            |docs| <= UINT32_MAX && BLOCK_PREFIX_SIZE <= |BlockBytes(src.rows, docs, src.elementSize)|
  {
    assert BlockWritable(SlotsOf(src.lists)[i].docs, src.rows);
  }

  lemma DirectoryGrouped(src: Source)
    requires Sizes(src)
    ensures var slots := SlotsOf(src.lists);
            EntriesOk(Directory(src, slots), |src.lists|, BlockOffset(src, slots, |slots|))
  {
    hide BlockArea, BlockBytes, Typed, Body, EntryOk, BlockOffset, SlotsOf, Writable;
    var slots := SlotsOf(src.lists);
    var entries := Directory(src, slots);
    PowValues();
    forall i | 0 <= i < |entries|
      ensures EntryOk(entries[i], |src.lists|, BlockOffset(src, slots, |slots|)) && OrderOk(entries, i)
    {
      EntryInBounds(src, i);
      SlotOrigin(src.lists, i);
      if i > 0 {
        SlotOrigin(src.lists, i - 1);
        EntryInBounds(src, i - 1);
      }
    }
  }

  /** The header, trailer and directory of a written body read back as written. */
  lemma BodyReads(src: Source)
    requires Sizes(src)
    ensures var slots, body := SlotsOf(src.lists), Body(src);
            && |body| >= HEADER_SIZE + TRAILER_SIZE
            && ReadHeader(body) == Header(src.elementSize, |slots|, src.alignment)
            && ReadTrailer(body) == Trailer(BlockOffset(src, slots, |slots|), |slots|, |src.lists|)
            && BlockOffset(src, slots, |slots|) + ENTRY_SIZE * |slots| + TRAILER_SIZE == |body|
            && HEADER_SIZE <= BlockOffset(src, slots, |slots|)
  {
    hide BlockArea, BlockBytes, Typed, Body, BlockOffset, ReadHeader, ReadTrailer, HeaderBytes, TrailerBytes, SlotsOf, Writable;
    var slots, body := SlotsOf(src.lists), Body(src);
    BodyParts(src);
    PowValues();
    AlignmentFits(HEADER_SIZE, src.alignment);
    WidthSmall(src);
    HeaderReads(body, src.elementSize, |slots|, src.alignment);
    TrailerReads(body, BlockOffset(src, slots, |slots|), |slots|, |src.lists|);
  }

  lemma WidthSmall(src: Source)
    requires Writable(src)
    ensures ValidWidth(src.elementSize) && 0 < src.elementSize < 0x100
  {
  }

  lemma DirectoryReads(src: Source)
    requires Sizes(src)
    ensures var slots, body := SlotsOf(src.lists), Body(src);
            && BlockOffset(src, slots, |slots|) + ENTRY_SIZE * |slots| <= |body|
            && ReadEntries(body, BlockOffset(src, slots, |slots|), |slots|) == Directory(src, slots)
  {
    hide BlockArea, BlockBytes, Typed, Body, BlockOffset, HeaderBytes, TrailerBytes, SlotsOf, Writable, EntryFor, ReadEntry, Flat,
      EntriesBytes, HasAt, EntryOk, EntryFits;
    var slots, body := SlotsOf(src.lists), Body(src);
    var entries, at := Directory(src, slots), BlockOffset(src, slots, |slots|);
    BodyParts(src);
    forall i | 0 <= i < |slots|
      ensures EntryFits(entries[i])
    {
      EntryInBounds(src, i);
    }
    EntriesRead(body, at, entries);
  }

  lemma EntriesRead(b: seq<byte>, at: nat, entries: seq<DirEntry>)
    requires HasAt(b, at, Flat(EntriesBytes(entries))) && forall i :: 0 <= i < |entries| ==> EntryFits(entries[i])
    ensures at + ENTRY_SIZE * |entries| <= |b| && ReadEntries(b, at, |entries|) == entries
  {
    hide Flat, HasAt, EntryFits, ReadEntry;
    FlatLength(EntriesBytes(entries), ENTRY_SIZE);
    InBounds(b, at, Flat(EntriesBytes(entries)));
    forall i | 0 <= i < |entries|
      ensures at + ENTRY_SIZE * i + ENTRY_SIZE <= |b| && ReadEntry(b, at + ENTRY_SIZE * i) == entries[i]
    {
      FlatAt(EntriesBytes(entries), ENTRY_SIZE, i);
      HasInner(b, at, Flat(EntriesBytes(entries)), ENTRY_SIZE * i, EntryBytes(entries[i]));
      EntryReads(b, at + ENTRY_SIZE * i, entries[i]);
    }
  }

  /**
   * The reader accepts what the writer wrote exactly when it names no more lists than there are
   * 16-bit terms: the writer does not check that bound, the reader does.
   */
  lemma WrittenIsAccepted(src: Source, address: nat)
    requires Sizes(src) && address % MIN_BLOCK_ALIGN == 0
    ensures Accepts(Body(src), address) <==> |src.lists| <= 0x1_0000
    ensures |src.lists| <= 0x1_0000 ==> EntriesIn(Body(src)) == Directory(src, SlotsOf(src.lists))
  {
    hide BlockArea, BlockBytes, Typed, Body, BlockOffset, SlotsOf, EntriesOk, ReadHeader, ReadTrailer;
    BodyReads(src);
    DirectoryReads(src);
    DirectoryGrouped(src);
    WidthSmall(src);
  }

  /** A corpus without documents over more lists than that is written, and then refused. */
  lemma ManyEmptyLists(n: nat, address: nat)
    requires MAX_LISTS < n < Pow256(4) && address % MIN_BLOCK_ALIGN == 0
    ensures var src := Source(seq(n, _ => []), [], 4, MIN_BLOCK_ALIGN);
            Sizes(src) && !Accepts(Body(src), address)
  {
    var lists: seq<seq<seq<nat>>> := seq(n, _ => []);
    var src := Source(lists, [], 4, MIN_BLOCK_ALIGN);
    NoSlots(lists);
    PowValues();
    assert PowerOfTwo(8) by { assert PowerOfTwo(4) && PowerOfTwo(2) && PowerOfTwo(1); }
    assert Renderable(src) && Writable(src) && Typed(src);
    BodyLength(src);
    assert FirstBlock(8) < HEADER_SIZE + 8;
    assert Sizes(src);
    WrittenIsAccepted(src, address);
  }

  lemma {:induction false} NoSlots(lists: seq<seq<seq<nat>>>)
    requires forall pl :: 0 <= pl < |lists| ==> lists[pl] == []
    ensures SlotsOf(lists) == []
  {
    if lists != [] {
      NoSlots(lists[..|lists| - 1]);
    }
  }

  // ---------------------------------------------------------------- a written block reads back

  /** The arrays of a block and their places. */
  lemma BlockPieces(rows: seq<Vector>, docs: seq<nat>, elementSize: nat)
    requires DocsIn(docs, |rows|) && elementSize > 0 && Stored(Payload(rows, docs), elementSize)
    ensures var payload := Payload(rows, docs);
            var block, o := BlockBytes(rows, docs, elementSize), OffsetsFor(|docs|, |payload|, elementSize);
            && |block| == o.end
            && HasAt(block, 0, LE(|docs|, 4))
            && HasAt(block, o.docIds, Flat(Ints(docs, 4)))
            && HasAt(block, o.off, Flat(Ints(Starts(rows, docs), 4)))
            && HasAt(block, o.comps, TermBytes(payload))
            && HasAt(block, o.vals, CodeBytes(payload))
  {
    hide Payload, OffsetsFor, TermBytes, CodeBytes, Flat, Starts, HasAt, BlockHead;
    var payload := Payload(rows, docs);
    var block, o := BlockBytes(rows, docs, elementSize), OffsetsFor(|docs|, |payload|, elementSize);
    BlockLength(rows, docs, elementSize);
    HeadPieces(rows, docs);
    var head, terms, codes := BlockHead(rows, docs), TermBytes(payload), CodeBytes(payload);
    var pad := Zeros(o.vals - (o.comps + COMP_WIDTH * |payload|));
    FourParts(head, terms, pad, codes);
    assert block == head + terms + pad + codes;
    HasInner(block, 0, head, 0, LE(|docs|, 4));
    HasInner(block, 0, head, o.docIds, Flat(Ints(docs, 4)));
    HasInner(block, 0, head, o.off, Flat(Ints(Starts(rows, docs), 4)));
  }

  lemma FourParts(a: seq<byte>, b: seq<byte>, c: seq<byte>, d: seq<byte>)
    ensures HasAt(a + b + c + d, 0, a) && HasAt(a + b + c + d, |a|, b) && HasAt(a + b + c + d, |a| + |b| + |c|, d)
  {
  }

  lemma ThreeParts(a: seq<byte>, b: seq<byte>, c: seq<byte>, second: nat, third: nat)
    requires second == |a| && third == |a| + |b|
    ensures HasAt(a + b + c, 0, a) && HasAt(a + b + c, second, b) && HasAt(a + b + c, third, c)
  {
  }

  lemma HeadPieces(rows: seq<Vector>, docs: seq<nat>)
    requires DocsIn(docs, |rows|)
    ensures HasAt(BlockHead(rows, docs), 0, LE(|docs|, 4))
    ensures HasAt(BlockHead(rows, docs), 4, Flat(Ints(docs, 4)))
    ensures HasAt(BlockHead(rows, docs), 4 + 4 * |docs|, Flat(Ints(Starts(rows, docs), 4)))
  {
    hide Flat, Starts, HasAt, LE, Payload;
    var ids, starts := Flat(Ints(docs, 4)), Flat(Ints(Starts(rows, docs), 4));
    FlatLength(Ints(docs, 4), 4);
    assert |ids| == 4 * |docs|;
    ThreeParts(LE(|docs|, 4), ids, starts, 4, 4 + 4 * |docs|);
    assert BlockHead(rows, docs) == LE(|docs|, 4) + ids + starts;
  }

  /** The count, the ids and the offsets of a block read back as given. */
  ghost predicate ElementsAt(section: seq<byte>, at: nat, docs: seq<nat>, starts: seq<nat>) {
    && |starts| == |docs| + 1 && at + 8 + 8 * |docs| <= |section|
    && ReadAt(section, at, 4) == |docs|
    && (forall i :: 0 <= i < |docs| ==> ReadAt(section, at + 4 + 4 * i, 4) == docs[i])
    && (forall i :: 0 <= i <= |docs| ==> OffsetAt(section, at + 4 + 4 * |docs|, i) == starts[i])
  }

  lemma IdsRead(section: seq<byte>, at: nat, docs: seq<nat>)
    requires HasAt(section, at, Flat(Ints(docs, 4)))
    requires forall i :: 0 <= i < |docs| ==> docs[i] < Pow256(4)
    ensures at + 4 * |docs| <= |section|
    ensures forall i :: 0 <= i < |docs| ==> ReadAt(section, at + 4 * i, 4) == docs[i]
  {
    hide Flat, HasAt, ReadAt;
    FlatLength(Ints(docs, 4), 4);
    HasRoom(section, at, Flat(Ints(docs, 4)));
    forall i | 0 <= i < |docs|
      ensures ReadAt(section, at + 4 * i, 4) == docs[i]
    {
      ReadsElement(section, at, docs, 4, i);
    }
  }

  lemma HasRoom(b: seq<byte>, off: nat, part: seq<byte>)
    requires HasAt(b, off, part)
    ensures off + |part| <= |b|
  {
  }

  /** A block in place: every array element reads back. */
  lemma BlockElements(section: seq<byte>, at: nat, rows: seq<Vector>, docs: seq<nat>, elementSize: nat)
    requires DocsIn(docs, |rows|) && elementSize > 0 && Stored(Payload(rows, docs), elementSize)
    requires |docs| <= UINT32_MAX && |Payload(rows, docs)| <= INT32_MAX && |rows| <= INT32_MAX + 1
    requires HasAt(section, at, BlockBytes(rows, docs, elementSize))
    ensures ElementsAt(section, at, docs, Starts(rows, docs))
  {
    hide Payload, OffsetsFor, Flat, BlockBytes, LE, HasAt, ReadAt;
    var block, starts := BlockBytes(rows, docs, elementSize), Starts(rows, docs);
    PowValues();
    BlockPieces(rows, docs, elementSize);
    HasInner(section, at, block, 0, LE(|docs|, 4));
    ReadsScalar(section, at, |docs|, 4);
    HasInner(section, at, block, 4, Flat(Ints(docs, 4)));
    HasInner(section, at, block, 4 + 4 * |docs|, Flat(Ints(starts, 4)));
    forall i | 0 <= i <= |docs|
      ensures starts[i] <= INT32_MAX
    {
      PayloadGrows(rows, docs, i);
    }
    IdsRead(section, at + 4, docs);
    IdsRead(section, at + 4 + 4 * |docs|, starts);
  }

  /** A stored component reads back from its place in the block. */
  lemma ComponentReads(section: seq<byte>, at: nat, rows: seq<Vector>, docs: seq<nat>, elementSize: nat, view: BlockView, c: nat)
    requires DocsIn(docs, |rows|) && elementSize > 0 && Stored(Payload(rows, docs), elementSize)
    requires HasAt(section, at, BlockBytes(rows, docs, elementSize)) && c < |Payload(rows, docs)|
    requires var o := OffsetsFor(|docs|, |Payload(rows, docs)|, elementSize);
             view.comps == at + o.comps && view.vals == at + o.vals
    ensures view.comps + COMP_WIDTH * c + COMP_WIDTH <= |section|
    ensures 0 <= elementSize * c && view.vals + elementSize * c + elementSize <= |section|
    ensures ComponentAt(section, view, elementSize, c) == Payload(rows, docs)[c]
  {
    hide Payload, OffsetsFor, Flat, BlockBytes, LE, HasAt, ReadAt, TermBytes, CodeBytes, Stored, Starts;
    var payload := Payload(rows, docs);
    var block, o := BlockBytes(rows, docs, elementSize), OffsetsFor(|docs|, |payload|, elementSize);
    BlockPieces(rows, docs, elementSize);
    HasInner(section, at, block, o.comps, TermBytes(payload));
    HasInner(section, at, block, o.vals, CodeBytes(payload));
    TermReads(section, view.comps, payload, elementSize, c);
    CodeReads(section, view.vals, payload, elementSize, c);
  }

  lemma TermReads(section: seq<byte>, comps: nat, payload: Vector, elementSize: nat, c: nat)
    requires Stored(payload, elementSize) && c < |payload| && HasAt(section, comps, TermBytes(payload))
    ensures comps + COMP_WIDTH * c + COMP_WIDTH <= |section|
    ensures ReadAt(section, comps + COMP_WIDTH * c, COMP_WIDTH) == payload[c].term
  {
    hide Flat, LE, ReadAt;
    PowValues();
    ReadsElement(section, comps, Terms(payload), COMP_WIDTH, c);
  }

  lemma CodeReads(section: seq<byte>, vals: nat, payload: Vector, elementSize: nat, c: nat)
    requires Stored(payload, elementSize) && c < |payload| && HasAt(section, vals, CodeBytes(payload))
    ensures 0 <= elementSize * c && vals + elementSize * c + elementSize <= |section|
    ensures section[vals + elementSize * c..vals + elementSize * c + elementSize] == payload[c].code
  {
    hide Flat;
    FlatAt(Codes(payload), elementSize, c);
    HasInner(section, vals, CodeBytes(payload), elementSize * c, Codes(payload)[c]);
    WithinRows(elementSize, c, c + 1);
  }

  /** A document's components are the slice of the payload between its offsets. */
  lemma {:induction false} PayloadSlice(rows: seq<Vector>, docs: seq<nat>, i: nat)
    requires DocsIn(docs, |rows|) && i < |docs|
    ensures Starts(rows, docs)[i + 1] == Starts(rows, docs)[i] + |rows[docs[i]]| <= |Payload(rows, docs)|
    ensures Payload(rows, docs)[Starts(rows, docs)[i]..Starts(rows, docs)[i + 1]] == rows[docs[i]]
  {
    PayloadStep(rows, docs, i);
    PayloadPrefix(rows, docs, i + 1);
    var p := Payload(rows, docs[..i + 1]);
    assert p[|Payload(rows, docs[..i])|..] == rows[docs[i]];
    assert Payload(rows, docs)[..|p|][|Payload(rows, docs[..i])|..] == rows[docs[i]];
  }

  lemma {:induction false} PayloadPrefix(rows: seq<Vector>, docs: seq<nat>, i: nat)
    requires DocsIn(docs, |rows|) && i <= |docs|
    ensures |Payload(rows, docs[..i])| <= |Payload(rows, docs)|
    ensures Payload(rows, docs)[..|Payload(rows, docs[..i])|] == Payload(rows, docs[..i])
    decreases |docs|
  {
    if i < |docs| {
      assert docs[..|docs| - 1][..i] == docs[..i];
      PayloadPrefix(rows, docs[..|docs| - 1], i);
    } else {
      assert docs[..i] == docs;
    }
  }

  /** The view of a written block shows exactly its documents, in order, each with its own vector. */
  ghost predicate Shows(section: seq<byte>, address: nat, view: BlockView, elementSize: nat, rows: seq<Vector>, docs: seq<nat>) {
    && ViewSafe(view, section, address, elementSize) && DocsIn(docs, |rows|)
    && view.nDocs == |docs|
    && (forall i :: 0 <= i < |docs| ==> DocIdAt(section, view, i) == docs[i])
    && (forall i :: 0 <= i < |docs| ==> DocVector(section, address, view, elementSize, i) == rows[docs[i]])
  }

  lemma WrittenBlock(section: seq<byte>, address: nat, e: DirEntry, rows: seq<Vector>, docs: seq<nat>, elementSize: nat)
    requires DocsIn(docs, |rows|) && ValidWidth(elementSize) && Stored(Payload(rows, docs), elementSize)
    requires |docs| <= UINT32_MAX && |Payload(rows, docs)| <= INT32_MAX && |rows| <= INT32_MAX + 1
    requires HasAt(section, e.byteOff, BlockBytes(rows, docs, elementSize))
    requires e.len == |BlockBytes(rows, docs, elementSize)| && e.nDocs == |docs|
    requires address % 8 == 0 && e.byteOff % 8 == 0
    ensures InSection(e, section) && BlockOk(section, e, elementSize)
    ensures Shows(section, address, ViewOf(section, e, elementSize), elementSize, rows, docs)
  {
    hide Payload, BlockBytes, OffsetAt, DocVector, ViewSafe, HasAt, ReadAt, ElementsAt, WrittenView, BlockOk, ViewOf, OffsetsFor;
    BlockLength(rows, docs, elementSize);
    BlockElements(section, e.byteOff, rows, docs, elementSize);
    HasRoom(section, e.byteOff, BlockBytes(rows, docs, elementSize));
    BlockIsOk(section, e, rows, docs, elementSize);
    AlignedView(section, address, e, elementSize);
    var view := ViewOf(section, e, elementSize);
    IdsShown(section, address, view, e.byteOff, rows, docs, elementSize);
    forall i | 0 <= i < |docs|
      ensures DocVector(section, address, view, elementSize, i) == rows[docs[i]]
    {
      WrittenVector(section, address, view, e.byteOff, rows, docs, elementSize, i);
    }
  }

  lemma IdsShown(section: seq<byte>, address: nat, view: BlockView, at: nat, rows: seq<Vector>, docs: seq<nat>, elementSize: nat)
    requires DocsIn(docs, |rows|) && elementSize > 0 && view == WrittenView(at, rows, docs, elementSize)
    requires ViewSafe(view, section, address, elementSize) && ElementsAt(section, at, docs, Starts(rows, docs))
    ensures view.nDocs == |docs| && view.docIds + 4 * view.nDocs <= |section| && view.offsets + 4 * |docs| + 4 <= |section|
    ensures forall i :: 0 <= i < |docs| ==> DocIdAt(section, view, i) == docs[i]
    ensures forall i :: 0 <= i <= |docs| ==> OffsetAt(section, view.offsets, i) == Starts(rows, docs)[i]
  {
    hide Payload, ReadAt, OffsetsFor, OffsetAt, Monotone;
  }

  /** The view the reader makes of a written block. */
  ghost function WrittenView(at: nat, rows: seq<Vector>, docs: seq<nat>, elementSize: nat): BlockView
    requires DocsIn(docs, |rows|) && elementSize > 0
  {
    var o := OffsetsFor(|docs|, |Payload(rows, docs)|, elementSize);
    BlockView(|docs|, at + o.docIds, at + o.off, at + o.comps, at + o.vals)
  }

  lemma BlockIsOk(section: seq<byte>, e: DirEntry, rows: seq<Vector>, docs: seq<nat>, elementSize: nat)
    requires DocsIn(docs, |rows|) && ValidWidth(elementSize)
    requires e.nDocs == |docs| && e.len == OffsetsFor(|docs|, |Payload(rows, docs)|, elementSize).end
    requires e.byteOff + e.len <= |section| && ElementsAt(section, e.byteOff, docs, Starts(rows, docs))
    ensures InSection(e, section) && BlockOk(section, e, elementSize)
    ensures ViewOf(section, e, elementSize) == WrittenView(e.byteOff, rows, docs, elementSize)
  {
    hide OffsetAt, OffsetsFor, Payload, ReadAt;
    var starts, offsets := Starts(rows, docs), e.byteOff + 4 + 4 * |docs|;
    assert docs[..|docs|] == docs && docs[..0] == [];
    NoPayloadCount(rows);
    assert starts[0] == 0 && starts[|docs|] == |Payload(rows, docs)|;
    assert OffsetsFor(|docs|, 0, elementSize).off == 4 + 4 * |docs|;
    forall i | 0 <= i < |docs|
      ensures OffsetAt(section, offsets, i) <= OffsetAt(section, offsets, i + 1)
    {
      PayloadSlice(rows, docs, i);
    }
    assert Monotone(section, offsets, |docs|);
    assert OffsetAt(section, offsets, |docs|) == |Payload(rows, docs)|;
    assert e.byteOff + OffsetsFor(|docs|, 0, elementSize).off == offsets;
  }

  lemma NoPayloadCount(rows: seq<Vector>)
    ensures Payload(rows, []) == []
  {
  }

  lemma SliceAt(v: Vector, from: nat, to: nat, c: nat)
    requires from <= to <= |v| && c < to - from
    ensures v[from..to][c] == v[from + c]
  {
  }

  lemma WrittenVector(section: seq<byte>, address: nat, view: BlockView, at: nat, rows: seq<Vector>, docs: seq<nat>,
                      elementSize: nat, i: nat)
    requires DocsIn(docs, |rows|) && ValidWidth(elementSize) && Stored(Payload(rows, docs), elementSize) && i < |docs|
    requires HasAt(section, at, BlockBytes(rows, docs, elementSize)) && ElementsAt(section, at, docs, Starts(rows, docs))
    requires view == WrittenView(at, rows, docs, elementSize) && ViewSafe(view, section, address, elementSize)
    ensures DocVector(section, address, view, elementSize, i) == rows[docs[i]]
  {
    hide Payload, BlockBytes, OffsetAt, OffsetsFor, ComponentAt, HasAt, ReadAt, ViewSafe, ElementsAt, DocVector, Stored;
    var starts := Starts(rows, docs);
    PayloadSlice(rows, docs, i);
    IdsShown(section, address, view, at, rows, docs, elementSize);
    assert OffsetAt(section, view.offsets, i) == starts[i] && OffsetAt(section, view.offsets, i + 1) == starts[i + 1];
    var v := DocVector(section, address, view, elementSize, i);
    forall c | 0 <= c < |v|
      ensures v[c] == rows[docs[i]][c]
    {
      DocVectorAt(section, address, view, elementSize, i, c);
      ComponentReads(section, at, rows, docs, elementSize, view, starts[i] + c);
      SliceAt(Payload(rows, docs), starts[i], starts[i + 1], c);
    }
  }
}
