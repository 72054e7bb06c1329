/** Finding any document's vector in a mapped index: in a block, or among the remainder. */
module DocDirectory {
  import opened SparseDot
  import opened Ranker
  import opened Distance
  import opened Bytes
  import opened InvertedLists
  import opened InlineFormat
  import opened InlineWriter
  import opened InlineReader
  import opened InlineRoundTrip
  import opened MappedSection
  import InvertedIndex
  import ExactMatcher

  const REMAINDER: nat := UINT32_MAX

  /** A block slot, or (REMAINDER, row, 0). */
  datatype DocLocator = DocLocator(postingList: nat, block: nat, slot: nat)

  // ---------------------------------------------------------------- writing the directory

  /** The locator names a slot that holds the document. */
  ghost predicate InSlot(loc: DocLocator, lists: seq<seq<seq<nat>>>, d: nat) {
    && loc.postingList < |lists| && loc.block < |lists[loc.postingList]|
    && loc.slot < |lists[loc.postingList][loc.block]| && lists[loc.postingList][loc.block][loc.slot] == d
  }

  /** Covered documents point at a slot of theirs, the others at nothing yet. */
  ghost predicate Covering(locators: seq<DocLocator>, covered: seq<bool>, lists: seq<seq<seq<nat>>>, numDocs: nat) {
    && |locators| == |covered| == numDocs
    && forall d :: 0 <= d < numDocs && covered[d] ==> InSlot(locators[d], lists, d)
  }

  /** Marks every document of one block, first occurrence first. */
  method CoverBlock(lists: seq<seq<seq<nat>>>, pl: nat, block: nat, locators: seq<DocLocator>, covered: seq<bool>)
    returns (newLocators: seq<DocLocator>, newCovered: seq<bool>)
    requires pl < |lists| && block < |lists[pl]| && Covering(locators, covered, lists, |covered|)
    ensures Covering(newLocators, newCovered, lists, |covered|)
    ensures forall d :: 0 <= d < |covered| && covered[d] ==> newCovered[d] && newLocators[d] == locators[d]
    ensures forall d :: d in lists[pl][block] && d < |covered| ==> newCovered[d]
  {
    newLocators, newCovered := locators, covered;
    var docs := lists[pl][block];
    for slot := 0 to |docs|
      invariant Covering(newLocators, newCovered, lists, |covered|)
      invariant forall d :: 0 <= d < |covered| && covered[d] ==> newCovered[d] && newLocators[d] == locators[d]
      invariant forall s :: 0 <= s < slot && docs[s] < |covered| ==> newCovered[docs[s]]
    {
      var d := docs[slot];
      if d < |covered| && !newCovered[d] {
        newCovered := newCovered[d := true];
        newLocators := newLocators[d := DocLocator(pl, block, slot)];
      }
    }
  }

  /** The documents of the first lists, or of the first blocks of one list, are covered. */
  ghost predicate BlocksCovered(covered: seq<bool>, list: seq<seq<nat>>, n: nat) {
    n <= |list| && forall b, d :: 0 <= b < n && d in list[b] && d < |covered| ==> covered[d]
  }

  ghost predicate ListsCovered(covered: seq<bool>, lists: seq<seq<seq<nat>>>, n: nat) {
    n <= |lists| && forall pl :: 0 <= pl < n ==> BlocksCovered(covered, lists[pl], |lists[pl]|)
  }

  lemma StaysCovered(before: seq<bool>, after: seq<bool>, lists: seq<seq<seq<nat>>>, n: nat)
    requires ListsCovered(before, lists, n) && |before| == |after|
    requires forall d :: 0 <= d < |before| && before[d] ==> after[d]
    ensures ListsCovered(after, lists, n)
  {
    forall pl | 0 <= pl < n
      ensures BlocksCovered(after, lists[pl], |lists[pl]|)
    {
      assert BlocksCovered(before, lists[pl], |lists[pl]|);
    }
  }

  /** Walks all blocks; afterwards exactly the documents in no block are uncovered. */
  method CoverBlocks(lists: seq<seq<seq<nat>>>, numDocs: nat) returns (locators: seq<DocLocator>, covered: seq<bool>)
    ensures Covering(locators, covered, lists, numDocs) && ListsCovered(covered, lists, |lists|)
  {
    locators := seq(numDocs, _ => DocLocator(REMAINDER, 0, 0));
    covered := seq(numDocs, _ => false);
    for pl := 0 to |lists|
      invariant Covering(locators, covered, lists, numDocs) && ListsCovered(covered, lists, pl)
    {
      for b := 0 to |lists[pl]|
        invariant Covering(locators, covered, lists, numDocs) && ListsCovered(covered, lists, pl)
        invariant BlocksCovered(covered, lists[pl], b)
      {
        ghost var before := covered;
        locators, covered := CoverBlock(lists, pl, b, locators, covered);
        StaysCovered(before, covered, lists, pl);
      }
    }
  }

  /** The directory of an index: a locator per document, and the vectors no block holds. */
  datatype Directory = Directory(locators: seq<DocLocator>, remainder: seq<Vector>)

  /** The locator leads to the document's vector. */
  ghost predicate Leads(loc: DocLocator, remainder: seq<Vector>, src: Source, d: nat)
    requires d < |src.rows|
  {
    if loc.postingList == REMAINDER then loc.block < |remainder| && remainder[loc.block] == src.rows[d] && loc.slot == 0
    else InSlot(loc, src.lists, d)
  }

  ghost predicate LeadsAll(dir: Directory, src: Source) {
    |dir.locators| == |src.rows|
    && forall d :: 0 <= d < |src.rows| ==> Leads(dir.locators[d], dir.remainder, src, d)
  }

  /** Block slots for covered documents, remainder rows in document order for the rest. */
  method WriteDocDirectory(src: Source) returns (dir: Directory)
    requires |src.lists| <= UINT32_MAX
    ensures LeadsAll(dir, src)
    ensures |dir.remainder| <= |src.rows| && forall i :: 0 <= i < |dir.remainder| ==> dir.remainder[i] in src.rows
  {
    var locators, covered := CoverBlocks(src.lists, |src.rows|);
    var remainder: seq<Vector> := [];
    for d := 0 to |src.rows|
      invariant |locators| == |src.rows| && |remainder| <= d
      invariant forall i :: 0 <= i < |remainder| ==> remainder[i] in src.rows
      invariant forall e :: 0 <= e < d ==> Leads(locators[e], remainder, src, e)
      invariant forall e :: d <= e < |src.rows| && covered[e] ==> InSlot(locators[e], src.lists, e)
    {
      if !covered[d] {
        ghost var was := locators;
        remainder := remainder + [src.rows[d]];
        locators := locators[d := DocLocator(REMAINDER, |remainder| - 1, 0)];
        assert forall e :: 0 <= e < d ==> locators[e] == was[e];
      }
    }
    return Directory(locators, remainder);
  }

  // ---------------------------------------------------------------- reading through it

  /** A mapped index: the section's bytes and what was loaded from them, and the directory. */
  datatype Mapped = Mapped(section: seq<byte>, address: nat, loaded: Loaded, dir: Directory)

  /** The mapped index was written from the source. */
  ghost predicate MappedFrom(m: Mapped, src: Source) {
    && Sizes(src) && m.section == Body(src) && LoadedFrom(m.loaded, m.section, m.address)
    && LeadsAll(m.dir, src) && |m.dir.remainder| <= |src.rows| && |src.lists| <= MAX_LISTS
  }

  /** The mapped index can be read at all. */
  ghost predicate ValidMapped(m: Mapped) {
    LoadedFrom(m.loaded, m.section, m.address)
    && forall d :: 0 <= d < |m.dir.locators| ==> m.dir.locators[d].block < UINT32_RANGE
  }

  lemma MappedIsValid(m: Mapped, src: Source)
    requires MappedFrom(m, src)
    ensures ValidMapped(m)
  {
    hide Body, LoadedFrom, Typed, Writable, Renderable;
    forall d | 0 <= d < |m.dir.locators|
      ensures m.dir.locators[d].block < UINT32_RANGE
    {
      assert Leads(m.dir.locators[d], m.dir.remainder, src, d);
    }
  }

  /** get_doc: the vector a locator leads to; a locator that does not resolve to its document is an error. */
  method GetDoc(m: Mapped, docId: nat) returns (result: Result<Vector>)
    requires ValidMapped(m) && docId < |m.dir.locators|
    ensures var loc := m.dir.locators[docId];
            loc.postingList == REMAINDER ==>
              (result.Ok? <==> loc.block < |m.dir.remainder|) && (result.Ok? ==> result.value == m.dir.remainder[loc.block])
    ensures var loc := m.dir.locators[docId];
            loc.postingList != REMAINDER ==> (result.Ok? <==> Resolves(m, loc, docId))
    ensures var loc := m.dir.locators[docId];
            loc.postingList != REMAINDER && result.Ok? ==> result.value == SlotVector(m, loc, docId)
  {
    hide LoadedFrom, BlockOk, ViewOf, ViewSafe;
    var loc := m.dir.locators[docId];
    if loc.postingList == REMAINDER {
      if loc.block >= |m.dir.remainder| {
        return Failed("remainder locator out of range");
      }
      return Ok(m.dir.remainder[loc.block]);
    }
    var view, absent := Block(m.section, m.address, m.loaded, loc.postingList, loc.block);
    if absent {
      return Failed("doc locator does not resolve to its doc");
    }
    if view.Failed? {
      return Failed(view.reason);
    }
    ViewRoom(m.section, m.address, view.value, m.loaded.elementSize);
    if loc.slot >= view.value.nDocs || DocIdAt(m.section, view.value, loc.slot) != docId {
      return Failed("doc locator does not resolve to its doc");
    }
    return Ok(DocVector(m.section, m.address, view.value, m.loaded.elementSize, loc.slot));
  }

  /** The locator's block exists, is well formed, and holds the document at the slot. */
  ghost predicate Resolves(m: Mapped, loc: DocLocator, docId: nat) {
    && !IsAbsent(m.loaded, loc.postingList, loc.block)
    && m.loaded.listOffset[loc.postingList] + loc.block < |m.loaded.entries|
    && (var e := m.loaded.entries[m.loaded.listOffset[loc.postingList] + loc.block];
        && InSection(e, m.section) && m.loaded.elementSize > 0 && BlockOk(m.section, e, m.loaded.elementSize)
        && (var view := ViewOf(m.section, e, m.loaded.elementSize);
            && ViewSafe(view, m.section, m.address, m.loaded.elementSize)
            && loc.slot < view.nDocs && DocIdAt(m.section, view, loc.slot) == docId))
  }

  ghost function SlotVector(m: Mapped, loc: DocLocator, docId: nat): Vector
    requires Resolves(m, loc, docId)
  {
    var e := m.loaded.entries[m.loaded.listOffset[loc.postingList] + loc.block];
    DocVector(m.section, m.address, ViewOf(m.section, e, m.loaded.elementSize), m.loaded.elementSize, loc.slot)
  }

  /** Every document of a mapped index reads back as its own row, wherever it was stored. */
  lemma GetDocIsRow(m: Mapped, src: Source, d: nat)
    requires MappedFrom(m, src) && d < |src.rows|
    ensures d < |m.dir.locators|
    ensures var loc := m.dir.locators[d];
            if loc.postingList == REMAINDER then loc.block < |m.dir.remainder| && m.dir.remainder[loc.block] == src.rows[d]
            else Resolves(m, loc, d) && SlotVector(m, loc, d) == src.rows[d]
  {
    hide Body, Sizes, LoadedFrom, Resolves, SlotVector, InSlot;
    var loc := m.dir.locators[d];
    assert Leads(loc, m.dir.remainder, src, d);
    if loc.postingList != REMAINDER {
      SlotResolves(m, src, loc, d);
    }
  }

  lemma SlotResolves(m: Mapped, src: Source, loc: DocLocator, d: nat)
    requires MappedFrom(m, src) && d < |src.rows| && InSlot(loc, src.lists, d)
    ensures Resolves(m, loc, d) && SlotVector(m, loc, d) == src.rows[d]
  {
    hide Body, Sizes, LoadedFrom, BlockOk, ViewOf, ViewSafe, DocVector, DocIdAt, Shows, MappedFrom, IsAbsent;
    BlockShown(m, src, loc.postingList, loc.block);
    var e := m.loaded.entries[m.loaded.listOffset[loc.postingList] + loc.block];
    ShowsSlot(m.section, m.address, ViewOf(m.section, e, m.loaded.elementSize), m.loaded.elementSize, src.rows,
              src.lists[loc.postingList][loc.block], loc.slot);
  }

  /** A written block is present, and its view shows its documents. */
  lemma BlockShown(m: Mapped, src: Source, pl: nat, b: nat)
    requires MappedFrom(m, src) && pl < |src.lists| && b < |src.lists[pl]|
    ensures !IsAbsent(m.loaded, pl, b)
    ensures pl + 1 < |m.loaded.listOffset| && m.loaded.listOffset[pl] + b < |m.loaded.entries|
    ensures var e := m.loaded.entries[m.loaded.listOffset[pl] + b];
            && InSection(e, m.section) && m.loaded.elementSize > 0 && BlockOk(m.section, e, m.loaded.elementSize)
            && Shows(m.section, m.address, ViewOf(m.section, e, m.loaded.elementSize), m.loaded.elementSize, src.rows, src.lists[pl][b])
  {
    hide Body, Sizes, LoadedFrom, BlockOk, ViewOf, Shows, SlotStart, LeadsAll;
    LoadedNumbering(src, m.address, m.loaded);
    BlockRoundTrip(src, m.address, m.loaded, pl, b);
  }

  lemma ShowsCount(section: seq<byte>, address: nat, view: BlockView, elementSize: nat, rows: seq<Vector>, docs: seq<nat>)
    requires Shows(section, address, view, elementSize, rows, docs)
    ensures view.nDocs == |docs|
  {
  }

  lemma ShowsSlot(section: seq<byte>, address: nat, view: BlockView, elementSize: nat, rows: seq<Vector>, docs: seq<nat>, slot: nat)
    requires Shows(section, address, view, elementSize, rows, docs) && slot < |docs|
    ensures ViewSafe(view, section, address, elementSize) && slot < view.nDocs && view.docIds + 4 * view.nDocs <= |section|
    ensures docs[slot] < |rows| && DocIdAt(section, view, slot) == docs[slot]
    ensures DocVector(section, address, view, elementSize, slot) == rows[docs[slot]]
  {
  }

  // ---------------------------------------------------------------- exact search over the mapped index

  /** The row a stored vector stands for, its value bytes decoded. */
  function Decoded(v: Vector, decode: seq<byte> -> real): (row: Row)
    ensures |row| == |v| && forall i :: 0 <= i < |v| ==> row[i] == Entry(v[i].term, decode(v[i].code))
  {
    seq(|v|, i requires 0 <= i < |v| => Entry(v[i].term, decode(v[i].code)))
  }

  ghost function DecodedRows(rows: seq<Vector>, decode: seq<byte> -> real): (r: seq<Row>)
    ensures |r| == |rows| && forall d :: 0 <= d < |rows| ==> r[d] == Decoded(rows[d], decode)
  {
    seq(|rows|, d requires 0 <= d < |rows| => Decoded(rows[d], decode))
  }

  /** Every document of the index can be read and is its source row. */
  method ReadRow(m: Mapped, ghost src: Source, d: nat) returns (result: Result<Vector>)
    requires MappedFrom(m, src) && d < |src.rows|
    ensures result == Ok(src.rows[d])
  {
    hide MappedFrom, ValidMapped, Resolves, SlotVector;
    MappedIsValid(m, src);
    GetDocIsRow(m, src, d);
    result := GetDoc(m, d);
  }

  /**
   * One query of the exact path over a mapped index. Its reply meets the very specification the
   * in-memory exact matcher meets over the same rows, and the buffer is clean again afterwards.
   */
  method ExactMatch(m: Mapped, ghost src: Source, ids: seq<int>, dense: array<real>, query: Row, k: int, decode: seq<byte> -> real)
    returns (result: Result<(seq<real>, seq<int>)>)
    requires MappedFrom(m, src)
    requires forall d :: 0 <= d < |src.rows| ==> TermsBelow(Decoded(src.rows[d], decode), dense.Length)
    requires AllZero(dense[..]) && TermsBelow(query, dense.Length)
    modifies dense
    ensures result.Ok? <==> k > 0
    ensures result.Ok? ==> AllZero(dense[..])
    ensures result.Ok? ==>
              ExactMatcher.IsExactReply(result.value.0, result.value.1, ids,
                                        InvertedIndex.DocScores(DecodedRows(src.rows, decode), LastWeights(query)), k)
  {
    hide MappedFrom, ValidMapped, TermsBelow, Scattered, ExactMatcher.Existing, OfferAll, AllZero, ExactMatcher.Lists, ExactMatcher.AscendingIds;
    var ordered := ExactMatcher.OrderedIds(ids);
    Scatter(dense, query);
    if k <= 0 {
      return Failed("value must be positive");
    }
    ghost var all := InvertedIndex.DocScores(DecodedRows(src.rows, decode), LastWeights(query));
    var holder := new TopKHolder(k);
    var fed := Feed(m, src, ordered, dense, LastWeights(query), holder, all, decode);
    RunAscending(ExactMatcher.Scored(ExactMatcher.Existing(ordered, |all|), all), k);
    var scores, labels := ExactMatcher.DrainPadded(holder);
    ClearScatter(dense, query);
    return Ok((scores, labels));
  }

  /** Offers every selected document the index holds, reading it through the directory. */
  method Feed(m: Mapped, ghost src: Source, ordered: seq<int>, dense: array<real>, ghost query: Row, holder: TopKHolder,
              ghost all: seq<real>, decode: seq<byte> -> real) returns (ok: bool)
    requires MappedFrom(m, src)
    requires forall d :: 0 <= d < |src.rows| ==> TermsBelow(Decoded(src.rows[d], decode), dense.Length)
    requires Scattered(dense[..], query)
    requires all == InvertedIndex.DocScores(DecodedRows(src.rows, decode), query)
    requires holder.Valid() && holder.pq == []
    modifies holder
    ensures ok && holder.Valid()
    ensures holder.pq == OfferAll(ExactMatcher.Scored(ExactMatcher.Existing(ordered, |all|), all), holder.k)
  {
    hide MappedFrom, ValidMapped, TermsBelow, Scattered, ExactMatcher.Existing, OfferAll, Decoded, DecodedRows, Offer;
    NothingFed(ordered, all, holder.k);
    LocatorCount(m, src);
    for i := 0 to |ordered|
      invariant holder.Valid()
      invariant holder.pq == OfferAll(ExactMatcher.Scored(ExactMatcher.Existing(ordered[..i], |all|), all), holder.k)
    {
      var id := ordered[i];
      ExactMatcher.OfferOneMore(ordered, i, all, holder.k);
      if 0 <= id < |m.dir.locators| {
        var doc := ReadRow(m, src, id);
        var score := DotProductDense(Decoded(doc.value, decode), dense, query);
        holder.Add(score, id);
      }
    }
    assert ordered[..|ordered|] == ordered;
    return true;
  }

  lemma NothingFed(ordered: seq<int>, all: seq<real>, k: nat)
    requires k > 0
    ensures OfferAll(ExactMatcher.Scored(ExactMatcher.Existing(ordered[..0], |all|), all), k) == []
  {
  }

  lemma LocatorCount(m: Mapped, src: Source)
    requires MappedFrom(m, src)
    ensures |m.dir.locators| == |src.rows|
  {
  }
}
