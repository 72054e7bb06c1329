/** Loading a mapped section: validating its directory, and viewing its blocks in place. */
module InlineReader {
  import opened Bytes
  import opened Align
  import opened InvertedLists
  import opened InlineFormat

  const UINT32_RANGE: nat := 0x1_0000_0000

  datatype Header = Header(elementSize: nat, nBlocks: nat, pageSize: nat)
  datatype Trailer = Trailer(dirOffset: nat, nEntries: nat, nLists: nat)

  /** A loaded index: the directory copied out, the blocks borrowed from the section. */
  datatype Loaded = Loaded(elementSize: nat, pageSize: nat, entries: seq<DirEntry>, listOffset: seq<nat>)

  // ---------------------------------------------------------------- decoding the fixed records

  function ReadHeader(section: seq<byte>): Header
    requires |section| >= HEADER_SIZE
  {
    Header(ReadAt(section, 0, 4), ReadAt(section, 8, 8), ReadAt(section, 16, 8))
  }

  function ReadTrailer(section: seq<byte>): Trailer
    requires |section| >= TRAILER_SIZE
  {
    var at := |section| - TRAILER_SIZE;
    Trailer(ReadAt(section, at, 8), ReadAt(section, at + 8, 8), ReadAt(section, at + 16, 8))
  }

  function ReadEntry(section: seq<byte>, at: nat): DirEntry
    requires at + ENTRY_SIZE <= |section|
  {
    DirEntry(ReadAt(section, at, 4), ReadAt(section, at + 4, 4), ReadAt(section, at + 8, 8), ReadAt(section, at + 16, 8),
             ReadAt(section, at + 24, 4))
  }

  function ReadEntries(section: seq<byte>, at: nat, n: nat): (entries: seq<DirEntry>)
    requires at + ENTRY_SIZE * n <= |section|
    ensures |entries| == n && forall i :: 0 <= i < n ==> entries[i] == ReadEntry(section, at + ENTRY_SIZE * i)
  {
    seq(n, i requires 0 <= i < n => ReadEntry(section, at + ENTRY_SIZE * i))
  }

  // ---------------------------------------------------------------- what a section must satisfy

  predicate HeaderOk(section: seq<byte>, address: nat) {
    && |section| >= HEADER_SIZE + TRAILER_SIZE
    && address % MIN_BLOCK_ALIGN == 0
    && ValidWidth(ReadHeader(section).elementSize)
    && ReadHeader(section).pageSize >= MIN_BLOCK_ALIGN && PowerOfTwo(ReadHeader(section).pageSize)
  }

  predicate DirectoryOk(section: seq<byte>)
    requires |section| >= HEADER_SIZE + TRAILER_SIZE
  {
    var t, dirEnd := ReadTrailer(section), |section| - TRAILER_SIZE;
    && t.nEntries == ReadHeader(section).nBlocks
    && HEADER_SIZE <= t.dirOffset <= dirEnd
    && (dirEnd - t.dirOffset) % ENTRY_SIZE == 0 && (dirEnd - t.dirOffset) / ENTRY_SIZE == t.nEntries
    && t.nLists <= MAX_LISTS
  }

  predicate EntryOk(e: DirEntry, nLists: nat, dirOffset: nat) {
    && e.pl < nLists && e.len >= BLOCK_PREFIX_SIZE && e.byteOff % MIN_BLOCK_ALIGN == 0
    && HEADER_SIZE <= e.byteOff <= dirOffset && e.len <= dirOffset - e.byteOff
  }

  /** The block number the directory order asks of entry i; it wraps like the 32-bit counter it is. */
  function ExpectedBlock(entries: seq<DirEntry>, i: nat): nat
    requires i < |entries|
  {
    if i == 0 || entries[i].pl != entries[i - 1].pl then 0 else (entries[i - 1].block + 1) % UINT32_RANGE
  }

  predicate OrderOk(entries: seq<DirEntry>, i: nat)
    requires i < |entries|
  {
    (i > 0 ==> entries[i - 1].pl <= entries[i].pl) && entries[i].block == ExpectedBlock(entries, i)
  }

  /** Every entry is in bounds, lists ascend, blocks count up from 0 without gaps. */
  ghost predicate EntriesOk(entries: seq<DirEntry>, nLists: nat, dirOffset: nat) {
    forall i :: 0 <= i < |entries| ==> EntryOk(entries[i], nLists, dirOffset) && OrderOk(entries, i)
  }

  ghost predicate Grouped(entries: seq<DirEntry>) {
    forall i :: 0 <= i < |entries| ==> OrderOk(entries, i)
  }

  /** The sections load_directory accepts. */
  ghost predicate Accepts(section: seq<byte>, address: nat) {
    && HeaderOk(section, address) && DirectoryOk(section)
    && EntriesOk(EntriesIn(section), ReadTrailer(section).nLists, ReadTrailer(section).dirOffset)
  }

  function EntriesIn(section: seq<byte>): seq<DirEntry>
    requires |section| >= HEADER_SIZE + TRAILER_SIZE && DirectoryOk(section)
  {
    ReadEntries(section, ReadTrailer(section).dirOffset, ReadTrailer(section).nEntries)
  }

  // ---------------------------------------------------------------- list starts

  /** How many entries belong to lists below pl. */
  function CountBelow(entries: seq<DirEntry>, pl: nat): nat {
    if entries == [] then 0
    else CountBelow(entries[..|entries| - 1], pl) + (if entries[|entries| - 1].pl < pl then 1 else 0)
  }

  function CountAt(entries: seq<DirEntry>, pl: nat): nat {
    if entries == [] then 0
    else CountAt(entries[..|entries| - 1], pl) + (if entries[|entries| - 1].pl == pl then 1 else 0)
  }

  lemma {:induction false} CountNext(entries: seq<DirEntry>, pl: nat)
    ensures CountBelow(entries, pl + 1) == CountBelow(entries, pl) + CountAt(entries, pl)
  {
    if entries != [] {
      CountNext(entries[..|entries| - 1], pl);
    }
  }

  lemma {:induction false} NoneBelowZero(entries: seq<DirEntry>)
    ensures CountBelow(entries, 0) == 0
  {
    if entries != [] {
      NoneBelowZero(entries[..|entries| - 1]);
    }
  }

  ghost predicate Ascending(entries: seq<DirEntry>) {
    forall i, j :: 0 <= i < j < |entries| ==> entries[i].pl <= entries[j].pl
  }

  lemma {:induction false} OrderAscends(entries: seq<DirEntry>, i: nat, j: nat)
    requires Grouped(entries) && i <= j < |entries|
    ensures entries[i].pl <= entries[j].pl
    decreases j
  {
    if i < j {
      OrderAscends(entries, i, j - 1);
      assert OrderOk(entries, j);
    }
  }

  lemma GroupedAscends(entries: seq<DirEntry>)
    requires Grouped(entries)
    ensures Ascending(entries)
  {
    forall i, j | 0 <= i < j < |entries|
      ensures entries[i].pl <= entries[j].pl
    {
      OrderAscends(entries, i, j);
    }
  }

  /** In an ascending directory the entries of lists below pl are exactly the first CountBelow. */
  lemma {:induction false} BelowIsPrefix(entries: seq<DirEntry>, pl: nat)
    requires Ascending(entries)
    ensures CountBelow(entries, pl) <= |entries|
    ensures forall i :: 0 <= i < |entries| ==> (entries[i].pl < pl <==> i < CountBelow(entries, pl))
  {
    if entries != [] {
      var init := entries[..|entries| - 1];
      assert forall i :: 0 <= i < |init| ==> init[i] == entries[i];
      BelowIsPrefix(init, pl);
    }
  }

  lemma WrapNext(b: nat)
    requires b > 0
    ensures ((b - 1) % UINT32_RANGE + 1) % UINT32_RANGE == b % UINT32_RANGE
  {
  }

  /** The b-th entry of a list is its block b. */
  lemma {:induction false} EntryIsBlock(entries: seq<DirEntry>, pl: nat, b: nat)
    requires Grouped(entries)
    requires CountBelow(entries, pl) + b < CountBelow(entries, pl + 1)
    ensures CountBelow(entries, pl) + b < |entries|
    ensures entries[CountBelow(entries, pl) + b].pl == pl
    ensures entries[CountBelow(entries, pl) + b].block == b % UINT32_RANGE
  {
    hide CountBelow;
    var lo := CountBelow(entries, pl);
    GroupedAscends(entries);
    BelowIsPrefix(entries, pl);
    BelowIsPrefix(entries, pl + 1);
    assert OrderOk(entries, lo + b);
    if b > 0 {
      EntryIsBlock(entries, pl, b - 1);
      WrapNext(b);
    }
  }

  // ---------------------------------------------------------------- loading

  /** Validates each entry and counts blocks per list. */
  method CountEntries(entries: seq<DirEntry>, nLists: nat, dirOffset: nat) returns (counts: Result<seq<nat>>)
    ensures counts.Ok? <==> EntriesOk(entries, nLists, dirOffset)
    ensures counts.Ok? ==> |counts.value| == nLists + 1 && counts.value[0] == 0
    ensures counts.Ok? ==> forall p :: 0 <= p < nLists ==> counts.value[p + 1] == CountAt(entries, p)
  {
    var c := seq(nLists + 1, _ => 0);
    var started, prevPl, prevBlock := false, 0, 0;
    for i := 0 to |entries|
      invariant |c| == nLists + 1 && c[0] == 0
      invariant forall p :: 0 <= p < nLists ==> c[p + 1] == CountAt(entries[..i], p)
      invariant forall j :: 0 <= j < i ==> EntryOk(entries[j], nLists, dirOffset) && OrderOk(entries, j)
      invariant started <==> i > 0
      invariant started ==> prevPl == entries[i - 1].pl && prevBlock == entries[i - 1].block
    {
      var e := entries[i];
      if !EntryOk(e, nLists, dirOffset) {
        return Failed("corrupt directory entry");
      }
      if started && e.pl < prevPl {
        assert !OrderOk(entries, i);
        return Failed("directory not ordered by (pl, block)");
      }
      var expected := if !started || e.pl != prevPl then 0 else (prevBlock + 1) % UINT32_RANGE;
      assert expected == ExpectedBlock(entries, i);
      if e.block != expected {
        assert !OrderOk(entries, i);
        return Failed("directory not ordered by (pl, block)");
      }
      assert OrderOk(entries, i);
      started, prevPl, prevBlock := true, e.pl, e.block;
      assert entries[..i + 1][..i] == entries[..i];
      c := c[e.pl + 1 := c[e.pl + 1] + 1];
    }
    assert entries[..|entries|] == entries;
    return Ok(c);
  }

  /** Where each list starts in the directory. */
  method ListStarts(entries: seq<DirEntry>, nLists: nat, counts: seq<nat>) returns (starts: seq<nat>)
    requires |counts| == nLists + 1 && counts[0] == 0
    requires forall p :: 0 <= p < nLists ==> counts[p + 1] == CountAt(entries, p)
    ensures |starts| == nLists + 1
    ensures forall p :: 0 <= p <= nLists ==> starts[p] == CountBelow(entries, p)
  {
    starts := counts;
    NoneBelowZero(entries);
    for p := 0 to nLists
      invariant |starts| == nLists + 1
      invariant forall q :: 0 <= q <= p ==> starts[q] == CountBelow(entries, q)
      invariant forall q :: p < q <= nLists ==> starts[q] == counts[q]
    {
      CountNext(entries, p);
      starts := starts[p + 1 := starts[p + 1] + starts[p]];
    }
  }

  /** A loaded index mirrors its section. */
  ghost predicate LoadedFrom(loaded: Loaded, section: seq<byte>, address: nat) {
    && Accepts(section, address)
    && loaded.elementSize == ReadHeader(section).elementSize && loaded.pageSize == ReadHeader(section).pageSize
    && loaded.entries == EntriesIn(section)
    && |loaded.listOffset| == ReadTrailer(section).nLists + 1
    && forall p :: 0 <= p < |loaded.listOffset| ==> loaded.listOffset[p] == CountBelow(loaded.entries, p)
  }

  /** Validates a section mapped at an address and loads its directory. */
  method LoadDirectory(section: seq<byte>, address: nat) returns (result: Result<Loaded>)
    ensures result.Ok? <==> Accepts(section, address)
    ensures result.Ok? ==> LoadedFrom(result.value, section, address)
  {
    if |section| < HEADER_SIZE + TRAILER_SIZE {
      return Failed("section too small");
    }
    if address % MIN_BLOCK_ALIGN != 0 {
      return Failed("section is under-aligned");
    }
    var header := ReadHeader(section);
    if !ValidWidth(header.elementSize) {
      return Failed("bad element_size");
    }
    PowerOfTwoBits(header.pageSize);
    if header.pageSize < MIN_BLOCK_ALIGN || BitAnd(header.pageSize, header.pageSize - 1) != 0 {
      return Failed("bad page_size");
    }
    var trailer := ReadTrailer(section);
    if !DirectoryOk(section) {
      return Failed("corrupt directory");
    }
    var entries := EntriesIn(section);
    var counts := CountEntries(entries, trailer.nLists, trailer.dirOffset);
    if counts.Failed? {
      return Failed(counts.reason);
    }
    var listOffset := ListStarts(entries, trailer.nLists, counts.value);
    return Ok(Loaded(header.elementSize, header.pageSize, entries, listOffset));
  }

  // ---------------------------------------------------------------- blocks in place

  /** A block's arrays, as positions in the section. */
  datatype BlockView = BlockView(nDocs: nat, docIds: nat, offsets: nat, comps: nat, vals: nat)

  /** The within-block offset i. */
  function OffsetAt(section: seq<byte>, offsets: nat, i: nat): nat
    requires offsets + 4 * i + 4 <= |section|
  {
    ReadAt(section, offsets + 4 * i, 4)
  }

  /** The entry lies in the section and has room for its document count. */
  ghost predicate InSection(e: DirEntry, section: seq<byte>) {
    e.byteOff + e.len <= |section| && e.len >= BLOCK_PREFIX_SIZE
  }

  ghost predicate Monotone(section: seq<byte>, offsets: nat, n: nat)
    requires offsets + 4 * n + 4 <= |section|
  {
    forall i :: 0 <= i < n ==> OffsetAt(section, offsets, i) <= OffsetAt(section, offsets, i + 1)
  }

  /** The blocks view_block accepts. */
  ghost predicate BlockOk(section: seq<byte>, e: DirEntry, elementSize: nat)
    requires InSection(e, section) && elementSize > 0
  {
    var n := ReadAt(section, e.byteOff, 4);
    var o := OffsetsFor(n, 0, elementSize);
    && n == e.nDocs
    && o.comps <= e.len
    && OffsetAt(section, e.byteOff + o.off, 0) == 0
    && Monotone(section, e.byteOff + o.off, n)
    && OffsetsFor(n, OffsetAt(section, e.byteOff + o.off, n), elementSize).end == e.len
  }

  /** A view that may be read: inside its section, aligned for its element types, offsets from 0 upwards. */
  ghost predicate ViewSafe(view: BlockView, section: seq<byte>, address: nat, elementSize: nat) {
    && elementSize > 0
    && view.docIds + 4 * view.nDocs <= |section| && view.offsets + 4 * view.nDocs + 4 <= |section|
    && (address + view.docIds) % 4 == 0 && (address + view.offsets) % 4 == 0
    && (address + view.comps) % 2 == 0 && (address + view.vals) % elementSize == 0
    && OffsetAt(section, view.offsets, 0) == 0 && Monotone(section, view.offsets, view.nDocs)
    && (var total := OffsetAt(section, view.offsets, view.nDocs);
        view.comps + COMP_WIDTH * total <= |section| && view.vals + elementSize * total <= |section|)
  }

  /** The view of an accepted block. */
  function ViewOf(section: seq<byte>, e: DirEntry, elementSize: nat): BlockView
    requires InSection(e, section) && elementSize > 0 && BlockOk(section, e, elementSize)
  {
    var o := OffsetsFor(e.nDocs, OffsetAt(section, e.byteOff + 4 + 4 * e.nDocs, e.nDocs), elementSize);
    BlockView(e.nDocs, e.byteOff + o.docIds, e.byteOff + o.off, e.byteOff + o.comps, e.byteOff + o.vals)
  }

  /** Validates a block's interior and views it in place. */
  method ViewBlock(section: seq<byte>, e: DirEntry, elementSize: nat) returns (result: Result<BlockView>)
    requires InSection(e, section) && elementSize > 0
    ensures result.Ok? <==> BlockOk(section, e, elementSize)
    ensures result.Ok? ==> result.value == ViewOf(section, e, elementSize)
  {
    var nDocs := ReadAt(section, e.byteOff, 4);
    if nDocs != e.nDocs {
      return Failed("block n_docs mismatch");
    }
    var head := OffsetsFor(nDocs, 0, elementSize);
    if head.comps > e.len {
      return Failed("block header overruns block");
    }
    var offsets := e.byteOff + head.off;
    if OffsetAt(section, offsets, 0) != 0 {
      return Failed("block offsets must start 0");
    }
    for i := 0 to nDocs
      invariant forall j :: 0 <= j < i ==> OffsetAt(section, offsets, j) <= OffsetAt(section, offsets, j + 1)
    {
      if OffsetAt(section, offsets, i + 1) < OffsetAt(section, offsets, i) {
        return Failed("block offsets not monotonic");
      }
    }
    var totalNnz := OffsetAt(section, offsets, nDocs);
    var layout := OffsetsFor(nDocs, totalNnz, elementSize);
    if layout.end != e.len {
      return Failed("block length mismatch");
    }
    return Ok(BlockView(nDocs, e.byteOff + layout.docIds, e.byteOff + layout.off, e.byteOff + layout.comps, e.byteOff + layout.vals));
  }

  /** Whatever bytes were accepted, a view is safe to read. */
  lemma ViewIsSafe(section: seq<byte>, address: nat, loaded: Loaded, e: DirEntry)
    requires LoadedFrom(loaded, section, address) && e in loaded.entries
    ensures InSection(e, section) && ValidWidth(loaded.elementSize)
    ensures BlockOk(section, e, loaded.elementSize) ==>
              ViewSafe(ViewOf(section, e, loaded.elementSize), section, address, loaded.elementSize)
  {
    var i :| 0 <= i < |loaded.entries| && loaded.entries[i] == e;
    var t := ReadTrailer(section);
    assert EntryOk(e, t.nLists, t.dirOffset);
    if BlockOk(section, e, loaded.elementSize) {
      AlignedView(section, address, e, loaded.elementSize);
    }
  }

  lemma AlignedSum(a: nat, b: nat, c: nat, w: nat)
    requires w == 1 || w == 2 || w == 4
    requires a % 8 == 0 && b % 8 == 0 && c % w == 0
    ensures (a + (b + c)) % w == 0
  {
    if w == 2 {
      AlignedTwo(a, b, c);
    } else if w == 4 {
      AlignedFour(a, b, c);
    }
  }

  lemma AlignedTwo(a: nat, b: nat, c: nat)
    requires a % 8 == 0 && b % 8 == 0 && c % 2 == 0
    ensures (a + (b + c)) % 2 == 0
  {
    var q := 4 * (a / 8) + 4 * (b / 8) + c / 2;
    assert a + (b + c) == 2 * q;
    DivideUnique(a + (b + c), 2, q, 0);
  }

  lemma AlignedFour(a: nat, b: nat, c: nat)
    requires a % 8 == 0 && b % 8 == 0 && c % 4 == 0
    ensures (a + (b + c)) % 4 == 0
  {
    var q := 2 * (a / 8) + 2 * (b / 8) + c / 4;
    assert a + (b + c) == 4 * q;
    DivideUnique(a + (b + c), 4, q, 0);
  }

  lemma AlignedView(section: seq<byte>, address: nat, e: DirEntry, elementSize: nat)
    requires InSection(e, section) && ValidWidth(elementSize) && BlockOk(section, e, elementSize)
    requires address % 8 == 0 && e.byteOff % 8 == 0
    ensures ViewSafe(ViewOf(section, e, elementSize), section, address, elementSize)
  {
    hide OffsetsFor, OffsetAt, Monotone, AlignedParts;
    var view := ViewOf(section, e, elementSize);
    var total := OffsetAt(section, view.offsets, view.nDocs);
    PartsAligned(address, e.byteOff, e.nDocs, total, elementSize);
    AlignedUse(address, view, e.byteOff, e.nDocs, total, elementSize);
  }

  /** The arrays of a block at an 8-aligned offset are aligned for their element types. */
  ghost predicate AlignedParts(address: nat, at: nat, o: BlockOffsets, elementSize: nat)
    requires elementSize > 0
  {
    && (address + (at + o.docIds)) % 4 == 0 && (address + (at + o.off)) % 4 == 0
    && (address + (at + o.comps)) % 2 == 0 && (address + (at + o.vals)) % elementSize == 0
  }

  lemma PartsAligned(address: nat, at: nat, nDocs: nat, total: nat, elementSize: nat)
    requires ValidWidth(elementSize) && address % 8 == 0 && at % 8 == 0
    ensures AlignedParts(address, at, OffsetsFor(nDocs, total, elementSize), elementSize)
  {
    hide OffsetsFor;
    var o := OffsetsFor(nDocs, total, elementSize);
    AlignedFour(address, at, o.docIds);
    AlignedFour(address, at, o.off);
    AlignedTwo(address, at, o.comps);
    AlignedSum(address, at, o.vals, elementSize);
  }

  lemma AlignedUse(address: nat, view: BlockView, at: nat, nDocs: nat, total: nat, elementSize: nat)
    requires elementSize > 0 && AlignedParts(address, at, OffsetsFor(nDocs, total, elementSize), elementSize)
    requires var o := OffsetsFor(nDocs, total, elementSize);
             view == BlockView(nDocs, at + o.docIds, at + o.off, at + o.comps, at + o.vals)
    ensures (address + view.docIds) % 4 == 0 && (address + view.offsets) % 4 == 0
    ensures (address + view.comps) % 2 == 0 && (address + view.vals) % elementSize == 0
  {
  }

  // ---------------------------------------------------------------- looking a block up

  function NumBlocksInList(loaded: Loaded, pl: nat): nat
    requires forall p :: 0 <= p < |loaded.listOffset| - 1 ==> loaded.listOffset[p] <= loaded.listOffset[p + 1]
  {
    if pl + 1 >= |loaded.listOffset| then 0 else loaded.listOffset[pl + 1] - loaded.listOffset[pl]
  }

  lemma ListOffsetsAscend(loaded: Loaded, section: seq<byte>, address: nat)
    requires LoadedFrom(loaded, section, address)
    ensures forall p :: 0 <= p < |loaded.listOffset| - 1 ==> loaded.listOffset[p] <= loaded.listOffset[p + 1]
  {
    forall p | 0 <= p < |loaded.listOffset| - 1
      ensures loaded.listOffset[p] <= loaded.listOffset[p + 1]
    {
      CountNext(loaded.entries, p);
    }
  }

  ghost predicate IsAbsent(loaded: Loaded, pl: nat, block: nat) {
    pl + 1 >= |loaded.listOffset| || loaded.listOffset[pl] + block >= loaded.listOffset[pl + 1]
  }

  /** The entry is (pl, block), and viewing it gave its arrays, safe to read. */
  ghost predicate IsView(result: Result<BlockView>, section: seq<byte>, address: nat, loaded: Loaded, pl: nat, block: nat, e: DirEntry) {
    && e.pl == pl && e.block == block && InSection(e, section) && loaded.elementSize > 0
    && (result.Ok? <==> BlockOk(section, e, loaded.elementSize))
    && (result.Ok? ==> result.value == ViewOf(section, e, loaded.elementSize)
                       && ViewSafe(result.value, section, address, loaded.elementSize))
  }

  /** Every (pl, block) within a list's count finds its own entry: no mismatch can occur. */
  lemma EntryFound(loaded: Loaded, section: seq<byte>, address: nat, pl: nat, block: nat)
    requires LoadedFrom(loaded, section, address) && block < UINT32_RANGE && !IsAbsent(loaded, pl, block)
    ensures loaded.listOffset[pl] + block < |loaded.entries|
    ensures var e := loaded.entries[loaded.listOffset[pl] + block]; e.pl == pl && e.block == block
  {
    hide CountBelow, EntryOk, OrderOk, HeaderOk, DirectoryOk;
    EntryIsBlock(loaded.entries, pl, block);
  }

  /** block(pl, b): absent past the list's end, otherwise the view of exactly that entry. */
  method Block(section: seq<byte>, address: nat, loaded: Loaded, pl: nat, block: nat)
    returns (result: Result<BlockView>, absent: bool)
    requires LoadedFrom(loaded, section, address) && block < UINT32_RANGE
    ensures absent <==> IsAbsent(loaded, pl, block)
    ensures !absent ==>
              loaded.listOffset[pl] + block < |loaded.entries|
              && IsView(result, section, address, loaded, pl, block, loaded.entries[loaded.listOffset[pl] + block])
  {
    hide LoadedFrom, BlockOk, ViewOf, ViewSafe;
    ListOffsetsAscend(loaded, section, address);
    if block >= NumBlocksInList(loaded, pl) {
      return Failed("absent"), true;
    }
    EntryFound(loaded, section, address, pl, block);
    var entry := loaded.entries[loaded.listOffset[pl] + block];
    if entry.pl != pl || entry.block != block {
      return Failed("absent"), true;
    }
    ViewIsSafe(section, address, loaded, entry);
    var view := ViewBlock(section, entry, loaded.elementSize);
    return view, false;
  }

  // ---------------------------------------------------------------- reading a viewed document

  function DocIdAt(section: seq<byte>, view: BlockView, i: nat): nat
    requires i < view.nDocs && view.docIds + 4 * view.nDocs <= |section|
  {
    ReadAt(section, view.docIds + 4 * i, 4)
  }

  lemma {:induction false} OffsetsRise(section: seq<byte>, offsets: nat, n: nat, i: nat, j: nat)
    requires offsets + 4 * n + 4 <= |section| && Monotone(section, offsets, n) && i <= j <= n
    ensures OffsetAt(section, offsets, i) <= OffsetAt(section, offsets, j)
    decreases j
  {
    hide OffsetAt;
    if i < j {
      OffsetsRise(section, offsets, n, i, j - 1);
    }
  }

  /** The component at position c of the block. */
  function ComponentAt(section: seq<byte>, view: BlockView, elementSize: nat, c: nat): Component
    requires view.comps + COMP_WIDTH * c + COMP_WIDTH <= |section|
    requires 0 <= elementSize * c && view.vals + elementSize * c + elementSize <= |section|
  {
    Component(ReadAt(section, view.comps + COMP_WIDTH * c, COMP_WIDTH),
              section[view.vals + elementSize * c..view.vals + elementSize * c + elementSize])
  }

  lemma ComponentInside(section: seq<byte>, address: nat, view: BlockView, elementSize: nat, i: nat, c: nat)
    requires ViewSafe(view, section, address, elementSize) && i < view.nDocs
    requires c < OffsetAt(section, view.offsets, i + 1)
    ensures view.comps + COMP_WIDTH * c + COMP_WIDTH <= |section|
    ensures 0 <= elementSize * c && view.vals + elementSize * c + elementSize <= |section|
  {
    hide OffsetAt;
    var total := OffsetAt(section, view.offsets, view.nDocs);
    OffsetsRise(section, view.offsets, view.nDocs, i + 1, view.nDocs);
    WithinRows(elementSize, c, total);
    WithinRows(COMP_WIDTH, c, total);
  }

  /** The i-th document's slice of the block: its terms and value bytes. */
  function DocVector(section: seq<byte>, address: nat, view: BlockView, elementSize: nat, i: nat): (v: Vector)
    requires ViewSafe(view, section, address, elementSize) && i < view.nDocs
    ensures |v| == OffsetAt(section, view.offsets, i + 1) - OffsetAt(section, view.offsets, i)
  {
    var lo, hi := OffsetAt(section, view.offsets, i), OffsetAt(section, view.offsets, i + 1);
    assert lo <= hi;
    seq(hi - lo, c requires 0 <= c < hi - lo =>
      ComponentInside(section, address, view, elementSize, i, lo + c);
      ComponentAt(section, view, elementSize, lo + c))
  }

  lemma DocVectorAt(section: seq<byte>, address: nat, view: BlockView, elementSize: nat, i: nat, c: nat)
    requires ViewSafe(view, section, address, elementSize) && i < view.nDocs
    requires OffsetAt(section, view.offsets, i) + c < OffsetAt(section, view.offsets, i + 1)
    ensures var at := OffsetAt(section, view.offsets, i) + c;
            && view.comps + COMP_WIDTH * at + COMP_WIDTH <= |section|
            && 0 <= elementSize * at && view.vals + elementSize * at + elementSize <= |section|
            && c < |DocVector(section, address, view, elementSize, i)|
            && DocVector(section, address, view, elementSize, i)[c] == ComponentAt(section, view, elementSize, at)
  {
    hide OffsetAt, ComponentAt;
    ComponentInside(section, address, view, elementSize, i, OffsetAt(section, view.offsets, i) + c);
  }

  lemma ViewRoom(section: seq<byte>, address: nat, view: BlockView, elementSize: nat)
    requires ViewSafe(view, section, address, elementSize)
    ensures view.docIds + 4 * view.nDocs <= |section|
  {
  }
}
