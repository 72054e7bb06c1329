/** The block-contiguous forward index on disk: what every byte of a section is. */
module InlineFormat {
  import opened Bytes
  import opened Align

  const HEADER_SIZE: nat := 24
  const ENTRY_SIZE: nat := 32
  const TRAILER_SIZE: nat := 24
  const MIN_BLOCK_ALIGN: nat := 8
  const BLOCK_PREFIX_SIZE: nat := 4
  const COMP_WIDTH: nat := 2
  const UINT32_MAX: nat := 0xFFFF_FFFF
  const INT32_MAX: nat := 0x7FFF_FFFF
  const MAX_LISTS: nat := 0x1_0000

  /** A stored component: a 16-bit term id and the bytes of its value. */
  datatype Component = Component(term: nat, code: seq<byte>)

  type Vector = seq<Component>

  /** What is written: per list its blocks' documents, and every document's vector. */
  datatype Source = Source(lists: seq<seq<seq<nat>>>, rows: seq<Vector>, elementSize: nat, alignment: nat)

  /** A block in writing order. */
  datatype Slot = Slot(pl: nat, block: nat, docs: seq<nat>)

  datatype DirEntry = DirEntry(pl: nat, block: nat, byteOff: nat, len: nat, nDocs: nat)

  /** Where each array of a block starts, and the block's length. */
  datatype BlockOffsets = BlockOffsets(docIds: nat, off: nat, comps: nat, vals: nat, end: nat)

  predicate ValidWidth(elementSize: nat) {
    elementSize == 1 || elementSize == 2 || elementSize == 4
  }

  predicate PowerOfTwo(n: nat) {
    n == 1 || (n > 1 && n % 2 == 0 && PowerOfTwo(n / 2))
  }

  /** Bitwise and, lowest bits first. */
  function BitAnd(a: nat, b: nat): nat {
    if a == 0 || b == 0 then 0 else 2 * BitAnd(a / 2, b / 2) + (a % 2) * (b % 2)
  }

  lemma {:induction false} BitAndSelf(a: nat)
    ensures BitAnd(a, a) == a
  {
    if a > 0 {
      BitAndSelf(a / 2);
      assert (a % 2) * (a % 2) == a % 2 by {
        assert a % 2 == 0 || a % 2 == 1;
      }
      assert BitAnd(a, a) == 2 * (a / 2) + a % 2;
    }
  }

  /** A page size is a power of two exactly when clearing its lowest set bit leaves nothing. */
  lemma {:induction false} PowerOfTwoBits(n: nat)
    ensures PowerOfTwo(n) <==> n != 0 && BitAnd(n, n - 1) == 0
  {
    if n > 1 {
      var half := n / 2;
      if n % 2 == 0 {
        assert (n - 1) / 2 == half - 1 && (n - 1) % 2 == 1;
        PowerOfTwoBits(half);
      } else {
        assert (n - 1) / 2 == half;
        BitAndSelf(half);
      }
    }
  }

  lemma {:induction false} PowerOfTwoMultiple(n: nat)
    requires PowerOfTwo(n) && n >= 8
    ensures n % 8 == 0
  {
    var half := n / 2;
    assert n == 2 * half;
    if n >= 16 {
      PowerOfTwoMultiple(half);
    } else {
      var quarter := half / 2;
      assert half == 2 * quarter && PowerOfTwo(quarter);
      assert quarter == 2 || quarter == 3;
    }
  }

  function OffsetsFor(nDocs: nat, totalNnz: nat, elementSize: nat): (o: BlockOffsets)
    requires elementSize > 0
    ensures o.docIds == BLOCK_PREFIX_SIZE && o.off == o.docIds + 4 * nDocs && o.comps == o.off + 4 * (nDocs + 1)
    ensures o.comps + COMP_WIDTH * totalNnz <= o.vals && o.end == o.vals + elementSize * totalNnz
    ensures o.vals % elementSize == 0
  {
    var docIds := BLOCK_PREFIX_SIZE;
    var off := docIds + 4 * nDocs;
    var comps := off + 4 * (nDocs + 1);
    var vals := AlignUp(comps + COMP_WIDTH * totalNnz, elementSize);
    BlockOffsets(docIds, off, comps, vals, vals + elementSize * totalNnz)
  }

  /** A block holds its count, ids, offsets, terms and values without a gap but the values' own alignment. */
  lemma OffsetsTight(nDocs: nat, totalNnz: nat, elementSize: nat)
    requires elementSize > 0
    ensures var o := OffsetsFor(nDocs, totalNnz, elementSize);
            && o.docIds == 4 && o.off == 4 + 4 * nDocs && o.comps == 8 + 8 * nDocs
            && 0 <= o.vals - (o.comps + 2 * totalNnz) < elementSize && o.vals % elementSize == 0
            && o.end == o.vals + elementSize * totalNnz
  {
  }

  // ---------------------------------------------------------------- a block

  ghost predicate DocsIn(docs: seq<nat>, n: nat) {
    forall i :: 0 <= i < |docs| ==> docs[i] < n
  }

  /** The documents' components, one document after the other. */
  ghost function Payload(rows: seq<Vector>, docs: seq<nat>): Vector
    requires DocsIn(docs, |rows|)
  {
    if docs == [] then [] else Payload(rows, docs[..|docs| - 1]) + rows[docs[|docs| - 1]]
  }

  /** The running component counts, from 0. */
  ghost function Starts(rows: seq<Vector>, docs: seq<nat>): (starts: seq<nat>)
    requires DocsIn(docs, |rows|)
    ensures |starts| == |docs| + 1
    ensures forall j :: 0 <= j <= |docs| ==> starts[j] == |Payload(rows, docs[..j])|
  {
    seq(|docs| + 1, j requires 0 <= j <= |docs| => |Payload(rows, docs[..j])|)
  }

  function Terms(v: Vector): (terms: seq<nat>)
    ensures |terms| == |v| && forall i :: 0 <= i < |v| ==> terms[i] == v[i].term
  {
    seq(|v|, i requires 0 <= i < |v| => v[i].term)
  }

  function Codes(v: Vector): (codes: seq<seq<byte>>)
    ensures |codes| == |v| && forall i :: 0 <= i < |v| ==> codes[i] == v[i].code
  {
    seq(|v|, i requires 0 <= i < |v| => v[i].code)
  }

  /** Terms fit 16 bits and every value has the element's width. */
  ghost predicate Stored(v: Vector, elementSize: nat) {
    forall i :: 0 <= i < |v| ==> v[i].term < 0x1_0000 && |v[i].code| == elementSize
  }

  ghost function TermBytes(v: Vector): seq<byte> {
    Flat(Ints(Terms(v), COMP_WIDTH))
  }

  ghost function CodeBytes(v: Vector): seq<byte> {
    Flat(Codes(v))
  }

  /** A block before its trailing padding: counts, ids, offsets, terms, padding, values. */
  ghost function BlockBytes(rows: seq<Vector>, docs: seq<nat>, elementSize: nat): seq<byte>
    requires DocsIn(docs, |rows|) && elementSize > 0
  {
    var payload := Payload(rows, docs);
    var o := OffsetsFor(|docs|, |payload|, elementSize);
    BlockHead(rows, docs) + TermBytes(payload) + Zeros(o.vals - (o.comps + COMP_WIDTH * |payload|)) + CodeBytes(payload)
  }

  ghost function BlockHead(rows: seq<Vector>, docs: seq<nat>): seq<byte>
    requires DocsIn(docs, |rows|)
  {
    LE(|docs|, 4) + Flat(Ints(docs, 4)) + Flat(Ints(Starts(rows, docs), 4))
  }

  // ---------------------------------------------------------------- the section

  ghost function ListSlots(pl: nat, list: seq<seq<nat>>): (slots: seq<Slot>)
    ensures |slots| == |list| && forall b :: 0 <= b < |list| ==> slots[b] == Slot(pl, b, list[b])
  {
    seq(|list|, b requires 0 <= b < |list| => Slot(pl, b, list[b]))
  }

  /** All blocks, list by list. */
  ghost function SlotsOf(lists: seq<seq<seq<nat>>>): seq<Slot> {
    if lists == [] then []
    else SlotsOf(lists[..|lists| - 1]) + ListSlots(|lists| - 1, lists[|lists| - 1])
  }

  /** Every document of every block exists. */
  ghost predicate SlotsIn(slots: seq<Slot>, rows: seq<Vector>) {
    forall i :: 0 <= i < |slots| ==> DocsIn(slots[i].docs, |rows|)
  }

  function FirstBlock(alignment: nat): nat
    requires alignment > 0
  {
    AlignUp(HEADER_SIZE, alignment)
  }

  /** The first block starts on the first boundary behind the header. */
  lemma FirstBlockTight(alignment: nat)
    requires alignment > 0
    ensures FirstBlock(alignment) % alignment == 0 && 24 <= FirstBlock(alignment) < 24 + alignment
  {
  }

  /** The blocks with their trailing padding, starting at the first block's offset. */
  ghost function BlockArea(src: Source, slots: seq<Slot>): seq<byte>
    requires src.elementSize > 0 && src.alignment > 0 && SlotsIn(slots, src.rows)
  {
    if slots == [] then []
    else
      var before := BlockArea(src, slots[..|slots| - 1]);
      var block := BlockBytes(src.rows, slots[|slots| - 1].docs, src.elementSize);
      before + block + Zeros(TrailingPad(src, |before| + |block|))
  }

  /** Padding after `used` bytes of blocks. */
  ghost function TrailingPad(src: Source, used: nat): nat
    requires src.alignment > 0
  {
    AlignUp(FirstBlock(src.alignment) + used, src.alignment) - (FirstBlock(src.alignment) + used)
  }

  ghost function BlockOffset(src: Source, slots: seq<Slot>, i: nat): nat
    requires src.elementSize > 0 && src.alignment > 0 && SlotsIn(slots, src.rows) && i <= |slots|
  {
    FirstBlock(src.alignment) + |BlockArea(src, slots[..i])|
  }

  ghost function EntryFor(src: Source, slots: seq<Slot>, i: nat): DirEntry
    requires src.elementSize > 0 && src.alignment > 0 && SlotsIn(slots, src.rows) && i < |slots|
  {
    DirEntry(slots[i].pl, slots[i].block, BlockOffset(src, slots, i),
             |BlockBytes(src.rows, slots[i].docs, src.elementSize)|, |slots[i].docs|)
  }

  ghost function Directory(src: Source, slots: seq<Slot>): (entries: seq<DirEntry>)
    requires src.elementSize > 0 && src.alignment > 0 && SlotsIn(slots, src.rows)
    ensures |entries| == |slots| && forall i :: 0 <= i < |slots| ==> entries[i] == EntryFor(src, slots, i)
  {
    seq(|slots|, i requires 0 <= i < |slots| => EntryFor(src, slots, i))
  }

  function EntryBytes(e: DirEntry): (b: seq<byte>)
    ensures |b| == ENTRY_SIZE
  {
    LE(e.pl, 4) + LE(e.block, 4) + LE(e.byteOff, 8) + LE(e.len, 8) + LE(e.nDocs, 4) + LE(0, 4)
  }

  function EntriesBytes(entries: seq<DirEntry>): (chunks: seq<seq<byte>>)
    ensures |chunks| == |entries| && Wide(chunks, ENTRY_SIZE)
    ensures forall i :: 0 <= i < |entries| ==> chunks[i] == EntryBytes(entries[i])
  {
    seq(|entries|, i requires 0 <= i < |entries| => EntryBytes(entries[i]))
  }

  /** The struct's four bytes of alignment padding are written as zeros and never read. */
  function HeaderBytes(elementSize: nat, nBlocks: nat, alignment: nat): (b: seq<byte>)
    ensures |b| == HEADER_SIZE
  {
    LE(elementSize, 4) + Zeros(4) + LE(nBlocks, 8) + LE(alignment, 8)
  }

  function TrailerBytes(dirOffset: nat, nEntries: nat, nLists: nat): (b: seq<byte>)
    ensures |b| == TRAILER_SIZE
  {
    LE(dirOffset, 8) + LE(nEntries, 8) + LE(nLists, 8)
  }

  ghost predicate Renderable(src: Source) {
    src.elementSize > 0 && src.alignment > 0 && SlotsIn(SlotsOf(src.lists), src.rows)
  }

  /** Header and its padding. */
  ghost function Front(src: Source, nBlocks: nat): (b: seq<byte>)
    requires src.alignment > 0
    ensures |b| == FirstBlock(src.alignment)
  {
    HeaderBytes(src.elementSize, nBlocks, src.alignment) + Zeros(FirstBlock(src.alignment) - HEADER_SIZE)
  }

  /** The whole section body. */
  ghost function Body(src: Source): seq<byte>
    requires Renderable(src)
  {
    var slots := SlotsOf(src.lists);
    Front(src, |slots|) + BlockArea(src, slots) + Flat(EntriesBytes(Directory(src, slots)))
    + TrailerBytes(BlockOffset(src, slots, |slots|), |slots|, |src.lists|)
  }
}
