/**
 * Posting lists, cluster lists and the CSR on disk: what is written, and that the copying and the
 * mapped reader make the same of it.
 */
module Serialization {
  import opened Bytes
  import opened InvertedLists
  import opened Streams

  const SIZE_RANGE: nat := 0x1_0000_0000_0000_0000

  /** The product, when 64 bits hold it. */
  function CheckedMul(a: nat, b: nat): (r: Result<nat>)
    ensures r.Ok? <==> a * b < SIZE_RANGE
    ensures r.Ok? ==> r.value == a * b
  {
    if a * b < SIZE_RANGE then Ok(a * b) else Failed("size overflow in index file")
  }

  /** Byte values read as words of this width must start on its boundary in memory. */
  predicate WordsAligned(how: Reading, end: nat, size: nat, width: nat): (aligned: bool)
    ensures how.Copied? || size == 0 ==> aligned
  {
    how.Mapped? && size > 0 && size <= end && width > 0 ==> (how.address + (end - size)) % width == 0
  }

  lemma WordsStartAligned(how: Reading, data: seq<byte>, pos: nat, size: nat, width: nat)
    requires OnBoundary(how) && Addressable(1, width)
    requires PaddedAt(how, data, pos, size, 1, width).Ok? && how.Mapped?
    ensures WordsAligned(how, PaddedAt(how, data, pos, size, 1, width).value.1, size, width)
  {
    StartAligned(how.address, pos, width, width);
  }

  /** Values of a loadable width start on their boundary wherever they end. */
  lemma EndAligned(address: nat, pos: nat, size: nat, width: nat)
    requires address % 8 == 0 && Addressable(1, width)
    ensures WordsAligned(Mapped(address), PaddedEnd(pos, size, 1, width), size, width)
  {
    hide PadCount;
    StartAligned(address, pos, width, width);
    assert PaddedEnd(pos, size, 1, width) - size == pos + PadCount(pos, width);
  }

  // ---------------------------------------------------------------- posting lists

  /** A posting list as stored: document ids, and one value of element_size bytes for each. */
  datatype PostingList = PostingList(ids: seq<nat>, codes: seq<nat>)

  function ListFields(list: PostingList, elementSize: nat): (fields: seq<Field>) {
    [Scalar(|list.ids|), Padded(list.ids, 4, 4), Padded(list.codes, 1, elementSize)]
  }

  /** What makes a list storable: 32-bit ids, whole values of a width the mapped reader can load. */
  ghost predicate StorableList(list: PostingList, elementSize: nat) {
    && AllFit(ListFields(list, elementSize))
    && |list.codes| == |list.ids| * elementSize < SIZE_RANGE
  }

  /** What either reader makes of the bytes at a position. */
  function DecodeList(how: Reading, data: seq<byte>, pos: nat, elementSize: nat): Result<(PostingList, nat)> {
    var (n, afterSize) :- ScalarAt(how, data, pos, 0);
    var (ids, afterIds) :- PaddedAt(how, data, afterSize, n, 4, 4);
    var size :- CheckedMul(n, elementSize);
    var (codes, end) :- PaddedAt(how, data, afterIds, size, 1, elementSize);
    if !WordsAligned(how, end, size, elementSize) then Failed("posting values are misaligned for the element size")
    else Ok((PostingList(ids, codes), end))
  }

  method SerializeList(list: PostingList, elementSize: nat, writer: IOWriter) returns (ok: bool)
    modifies writer
    ensures ok <==> elementSize > 0
    ensures ok ==> writer.bytes == old(writer.bytes) + Encode(ListFields(list, elementSize), |old(writer.bytes)|)
  {
    hide FieldBytes, Encode;
    ghost var was, done: seq<Field> := writer.bytes, [];
    NothingWritten(was);
    writer.WriteScalar(|list.ids|);
    done := Extend(was, done, Scalar(|list.ids|));
    var idsOk := writer.WritePadded(list.ids, 4, 4);
    done := Extend(was, done, Padded(list.ids, 4, 4));
    ok := writer.WritePadded(list.codes, 1, elementSize);
    done := Extend(was, done, Padded(list.codes, 1, elementSize));
    assert done == ListFields(list, elementSize);
  }

  method DeserializeList(reader: IOReader, elementSize: nat) returns (result: Result<PostingList>)
    requires reader.Valid()
    modifies reader
    ensures reader.Valid()
    ensures var r := DecodeList(Copied, reader.data, old(reader.pos), elementSize);
            (result.Ok? <==> r.Ok?) && (result.Ok? ==> r == Ok((result.value, reader.pos)))
  {
    hide ScalarAt, PaddedAt;
    var n := reader.ReadScalar(0);
    var ids := reader.ReadPadded(n, 4, 4);
    if ids.Failed? {
      return Failed(ids.reason);
    }
    var size := CheckedMul(n, elementSize);
    if size.Failed? {
      return Failed(size.reason);
    }
    var codes := reader.ReadPadded(size.value, 1, elementSize);
    if codes.Failed? {
      return Failed(codes.reason);
    }
    return Ok(PostingList(ids.value, codes.value));
  }

  method MapList(cursor: MmapCursor, elementSize: nat) returns (result: Result<PostingList>)
    requires cursor.Valid()
    modifies cursor
    ensures cursor.Valid()
    ensures var r := DecodeList(Mapped(cursor.address), cursor.data, old(cursor.pos), elementSize);
            (result.Ok? <==> r.Ok?) && (result.Ok? ==> r == Ok((result.value, cursor.pos)))
  {
    hide ScalarAt, PaddedAt;
    var n := MapScalar(cursor);
    if n.Failed? {
      return Failed(n.reason);
    }
    var ids := BorrowPadded(cursor, n.value, 4, 4);
    if ids.Failed? {
      return Failed(ids.reason);
    }
    var size := CheckedMul(n.value, elementSize);
    if size.Failed? {
      return Failed(size.reason);
    }
    var codes := BorrowPadded(cursor, size.value, 1, elementSize);
    if codes.Failed? {
      return Failed(codes.reason);
    }
    if !WordsAligned(Mapped(cursor.address), cursor.pos, size.value, elementSize) {
      return Failed("posting values are misaligned for the element size");
    }
    return Ok(PostingList(ids.value, codes.value));
  }

  /** Values borrowed in place start on a boundary of their own width in memory, whatever that width. */
  lemma BorrowedAligned(address: nat, data: seq<byte>, pos: nat, elementSize: nat)
    requires DecodeList(Mapped(address), data, pos, elementSize).Ok?
    ensures var (list, end) := DecodeList(Mapped(address), data, pos, elementSize).value;
            |list.codes| == |list.ids| * elementSize
            && (list.codes != [] ==> |list.codes| <= end && (address + (end - |list.codes|)) % elementSize == 0)
  {
    hide ScalarAt;
    var (n, afterSize) := ScalarAt(Mapped(address), data, pos, 0).value;
    var (ids, afterIds) := PaddedAt(Mapped(address), data, afterSize, n, 4, 4).value;
    assert |ids| == n;
  }

  /** A list written at any offset of any stream is read back by both readers, which stop behind it. */
  lemma ListRoundTrip(how: Reading, data: seq<byte>, pos: nat, list: PostingList, elementSize: nat)
    requires StorableList(list, elementSize) && OnBoundary(how)
    requires HasAt(data, pos, Encode(ListFields(list, elementSize), pos))
    ensures DecodeList(how, data, pos, elementSize) == Ok((list, pos + |Encode(ListFields(list, elementSize), pos)|))
  {
    hide Encode, ScalarAt, PaddedAt, HasAt;
    var fields := ListFields(list, elementSize);
    ReadsBack(how, data, pos, fields, 0);
    ReadsBack(how, data, pos, fields, 1);
    ReadsBack(how, data, pos, fields, 2);
    PlaceEnds(fields, pos);
    if how.Mapped? {
      WordsStartAligned(how, data, Place(fields, pos, 2), |list.codes|, elementSize);
    }
  }

  lemma PlaceEnds(fields: seq<Field>, pos: nat)
    ensures Place(fields, pos, 0) == pos && Place(fields, pos, |fields|) == pos + |Encode(fields, pos)|
  {
    assert fields[..0] == [] && fields[..|fields|] == fields;
  }

  /** Where a list at pos ends. */
  function ListEnd(list: PostingList, elementSize: nat, pos: nat): (end: nat)
    ensures end >= pos + 8
  {
    PaddedEnd(PaddedEnd(pos + 8, |list.ids|, 4, 4), |list.codes|, 1, elementSize)
  }

  /** The stream holds the list to its end, and its values start on their own boundary. */
  ghost predicate ListWhole(address: nat, limit: nat, list: PostingList, elementSize: nat, pos: nat) {
    var end := ListEnd(list, elementSize, pos);
    end <= limit && WordsAligned(Mapped(address), end, |list.codes|, elementSize)
  }

  /**
   * Over any bytes at all, sound or corrupt: a list the mapped reader accepts is the one copied, and
   * on an 8-aligned mapping it accepts exactly the copied lists that are all there and aligned.
   */
  lemma ListReadersAgree(address: nat, data: seq<byte>, pos: nat, elementSize: nat)
    requires pos <= |data|
    ensures var mapped, copied := DecodeList(Mapped(address), data, pos, elementSize), DecodeList(Copied, data, pos, elementSize);
            && (mapped.Ok? ==> copied == mapped && mapped.value.1 == ListEnd(mapped.value.0, elementSize, pos))
            && (copied.Ok? ==> pos <= copied.value.1 <= |data|)
            && (address % 8 == 0 ==>
                  (mapped.Ok? <==> copied.Ok? && ListWhole(address, |data|, copied.value.0, elementSize, pos)))
  {
    hide ScalarAt, PaddedAt, PaddedEnd;
    ScalarAgrees(address, data, pos, 0);
    var (n, afterSize) := ScalarAt(Copied, data, pos, 0).value;
    PaddedAgrees(address, data, afterSize, n, 4, 4);
    var ids := PaddedAt(Copied, data, afterSize, n, 4, 4);
    if ids.Ok? && n * elementSize < SIZE_RANGE {
      PaddedAgrees(address, data, ids.value.1, n * elementSize, 1, elementSize);
      if address % 8 == 0 {
        PaddedWhole(address, data, afterSize, n, 4, 4);
        PaddedWhole(address, data, ids.value.1, n * elementSize, 1, elementSize);
      }
    }
  }

  /** Where an empty list written at pos ends. */
  function EmptyListEnd(pos: nat, elementSize: nat): nat {
    var afterIds := pos + 8 + PadCount(pos + 8, 4);
    afterIds + PadCount(afterIds, elementSize)
  }

  /**
   * Exactly when the two differ on an 8-aligned mapping: the copying reader also takes an empty
   * list off a stream that ends before the list does.
   */
  lemma ListReadersDiffer(address: nat, data: seq<byte>, pos: nat, elementSize: nat)
    requires pos <= |data| && address % 8 == 0 && Addressable(1, elementSize)
    ensures DecodeList(Mapped(address), data, pos, elementSize).Ok? <==>
            DecodeList(Copied, data, pos, elementSize).Ok?
            && (DecodeList(Copied, data, pos, elementSize).value.0.ids == [] ==> EmptyListEnd(pos, elementSize) <= |data|)
  {
    hide ScalarAt, PaddedAt, PadCount;
    ScalarAgrees(address, data, pos, 0);
    var (n, afterSize) := ScalarAt(Copied, data, pos, 0).value;
    PaddedDiffers(address, data, afterSize, n, 4, 4);
    PaddedAgrees(address, data, afterSize, n, 4, 4);
    ShortScalar(data, pos, n, afterSize);
    var ids := PaddedAt(Copied, data, afterSize, n, 4, 4);
    if ids.Ok? && n * elementSize < SIZE_RANGE {
      var afterIds, size := ids.value.1, n * elementSize;
      PaddedDiffers(address, data, afterIds, size, 1, elementSize);
      PaddedAgrees(address, data, afterIds, size, 1, elementSize);
      if PaddedAt(Mapped(address), data, afterIds, size, 1, elementSize).Ok? {
        WordsStartAligned(Mapped(address), data, afterIds, size, elementSize);
      }
      if n == 0 {
        EmptyArrayEnd(data, afterSize, 4, 4);
      } else {
        assert size > 0;
      }
    }
  }

  /** After a short scalar read nothing is left, so no array that follows can hold anything. */
  lemma ShortScalar(data: seq<byte>, pos: nat, n: nat, next: nat)
    requires pos <= |data| && ScalarAt(Copied, data, pos, 0) == Ok((n, next))
    ensures next == if pos + 8 <= |data| then pos + 8 else |data|
    ensures pos + 8 > |data| && PaddedAt(Copied, data, next, n, 4, 4).Ok? ==> n == 0
  {
  }

  lemma EmptyArrayEnd(data: seq<byte>, pos: nat, width: nat, alignment: nat)
    requires pos <= |data| && width > 0 && alignment > 0
    ensures PaddedAt(Copied, data, pos, 0, width, alignment) ==
            Ok(([], if pos + PadCount(pos, alignment) <= |data| then pos + PadCount(pos, alignment) else |data|))
  {
  }

  // ---------------------------------------------------------------- records one after the other

  /** n records, each decoded where the one before it ended. */
  function DecodeEach<T>(decode: nat -> Result<(T, nat)>, pos: nat, n: nat): (r: Result<(seq<T>, nat)>)
    ensures r.Ok? ==> |r.value.0| == n
  {
    if n == 0 then Ok(([], pos))
    else
      var (init, at) :- DecodeEach(decode, pos, n - 1);
      var (x, end) :- decode(at);
      Ok((init + [x], end))
  }

  /** Where record i of a run of records starts. */
  function RecordStart(records: seq<seq<Field>>, pos: nat, i: nat): nat
    requires i <= |records|
  {
    pos + |Encode(Joined(records[..i]), pos)|
  }

  /** The fields of all the records. */
  function Joined(records: seq<seq<Field>>): seq<Field> {
    if records == [] then [] else Joined(records[..|records| - 1]) + records[|records| - 1]
  }

  lemma {:induction false} JoinedAppend(a: seq<seq<Field>>, b: seq<seq<Field>>)
    ensures Joined(a + b) == Joined(a) + Joined(b)
  {
    if b == [] {
      assert a + b == a;
    } else {
      assert (a + b)[..|a + b| - 1] == a + b[..|b| - 1];
      JoinedAppend(a, b[..|b| - 1]);
    }
  }

  lemma NoRecords(header: seq<Field>, none: seq<seq<Field>>)
    requires none == []
    ensures header + Joined(none) == header
  {
  }

  /** Writing the next record behind the header and the records before it. */
  lemma OneMoreRecord(was: seq<byte>, header: seq<Field>, records: seq<seq<Field>>, t: nat)
    requires t < |records|
    ensures var written := was + Encode(header + Joined(records[..t]), |was|);
            written + Encode(records[t], |written|) == was + Encode(header + Joined(records[..t + 1]), |was|)
  {
    hide Encode;
    var before := header + Joined(records[..t]);
    assert records[..t + 1][..t] == records[..t];
    assert header + Joined(records[..t + 1]) == before + records[t];
    EncodeAppend(before, records[t], |was|);
  }

  /** Record i sits at its start, and the next one starts where it ends. */
  lemma RecordSits(data: seq<byte>, pos: nat, records: seq<seq<Field>>, i: nat)
    requires HasAt(data, pos, Encode(Joined(records), pos)) && i < |records|
    ensures HasAt(data, RecordStart(records, pos, i), Encode(records[i], RecordStart(records, pos, i)))
    ensures RecordStart(records, pos, i + 1) == RecordStart(records, pos, i) + |Encode(records[i], RecordStart(records, pos, i))|
  {
    hide Encode, HasAt;
    var before, after := records[..i], records[i + 1..];
    assert records == records[..i + 1] + after;
    assert records[..i + 1][..i] == before;
    JoinedAppend(records[..i + 1], after);
    EncodeAppend(Joined(records[..i + 1]), Joined(after), pos);
    EncodeAppend(Joined(before), records[i], pos);
    var head, mid := Encode(Joined(before), pos), Encode(records[i], RecordStart(records, pos, i));
    var tail := Encode(Joined(after), pos + |head + mid|);
    assert Encode(Joined(records), pos) == head + mid + tail;
    HasMiddle(head, mid, tail);
    HasInner(data, pos, Encode(Joined(records), pos), |head|, mid);
  }

  /** Records that each decode where they sit decode one after the other. */
  lemma {:induction false} EachReads<T>(decode: nat -> Result<(T, nat)>, pos: nat, records: seq<seq<Field>>, xs: seq<T>, n: nat)
    requires n <= |records| == |xs|
    requires forall i :: 0 <= i < n ==> decode(RecordStart(records, pos, i)) == Ok((xs[i], RecordStart(records, pos, i + 1)))
    ensures DecodeEach(decode, pos, n) == Ok((xs[..n], RecordStart(records, pos, n)))
  {
    if n == 0 {
      assert records[..0] == [];
    } else {
      EachReads(decode, pos, records, xs, n - 1);
      assert xs[..n - 1] + [xs[n - 1]] == xs[..n];
    }
  }

  /** Where a run of records ends, each record ending where `end` says. */
  function RunEnd<T>(xs: seq<T>, pos: nat, end: (T, nat) -> nat): nat {
    if xs == [] then pos else end(xs[|xs| - 1], RunEnd(xs[..|xs| - 1], pos, end))
  }

  /** Every record of the run is whole where it starts. */
  ghost predicate AllWhole<T>(xs: seq<T>, pos: nat, end: (T, nat) -> nat, whole: (T, nat) -> bool) {
    xs == [] || (AllWhole(xs[..|xs| - 1], pos, end, whole) && whole(xs[|xs| - 1], RunEnd(xs[..|xs| - 1], pos, end)))
  }

  /** If the mapped reader accepts exactly the copied records that are whole, so it does with a run of them. */
  lemma {:induction false} EachAgrees<T>(mapped: nat -> Result<(T, nat)>, copied: nat -> Result<(T, nat)>, pos: nat, n: nat, limit: nat,
                                         end: (T, nat) -> nat, whole: (T, nat) -> bool)
    requires pos <= limit
    requires forall p: nat :: p <= limit && mapped(p).Ok? ==> copied(p) == mapped(p) && mapped(p).value.1 == end(mapped(p).value.0, p)
    requires forall p: nat :: p <= limit && copied(p).Ok? ==> p <= copied(p).value.1 <= limit
    requires forall p: nat :: p <= limit && copied(p).Ok? && whole(copied(p).value.0, p) ==> mapped(p).Ok?
    requires forall p: nat :: p <= limit && mapped(p).Ok? ==> whole(mapped(p).value.0, p)
    ensures var m, c := DecodeEach(mapped, pos, n), DecodeEach(copied, pos, n);
            && (m.Ok? ==> c == m && m.value.1 == RunEnd(m.value.0, pos, end))
            && (c.Ok? ==> pos <= c.value.1 <= limit)
            && (m.Ok? <==> c.Ok? && AllWhole(c.value.0, pos, end, whole))
  {
    if n > 0 {
      EachAgrees(mapped, copied, pos, n - 1, limit, end, whole);
      var c := DecodeEach(copied, pos, n - 1);
      if c.Ok? && copied(c.value.1).Ok? {
        var xs, x := c.value.0, copied(c.value.1).value.0;
        assert (xs + [x])[..|xs + [x]| - 1] == xs;
      }
    }
  }

  /** Whole records of at least 8 bytes leave room for as many. */
  lemma {:induction false} RunHasRoom<T>(xs: seq<T>, pos: nat, end: (T, nat) -> nat)
    requires forall x: T, p: nat :: end(x, p) >= p + 8
    ensures RunEnd(xs, pos, end) >= pos + 8 * |xs|
  {
    if xs != [] {
      RunHasRoom(xs[..|xs| - 1], pos, end);
    }
  }

  // ---------------------------------------------------------------- all posting lists

  function ListRecords(lists: seq<PostingList>, elementSize: nat): (records: seq<seq<Field>>)
    ensures |records| == |lists| && forall t :: 0 <= t < |lists| ==> records[t] == ListFields(lists[t], elementSize)
  {
    seq(|lists|, t requires 0 <= t < |lists| => ListFields(lists[t], elementSize))
  }

  /** The term count, the element width, then every list. */
  function ArrayFields(lists: seq<PostingList>, elementSize: nat): seq<Field> {
    [Scalar(|lists|), Scalar(elementSize)] + Joined(ListRecords(lists, elementSize))
  }

  /** ArrayInvertedLists::read, and map with its bound on the term count. */
  function DecodeLists(how: Reading, data: seq<byte>, pos: nat, elementSize: nat): Result<(seq<PostingList>, nat)> {
    var (nTerm, afterCount) :- ScalarAt(how, data, pos, 0);
    var (stored, at) :- ScalarAt(how, data, afterCount, 0);
    if stored != elementSize then Failed("stored posting element width is not the one this index reads")
    else if how.Mapped? && (at > |data| || nTerm > (|data| - at) / 8) then Failed("implausible term count in index file")
    else DecodeEach((p: nat) => DecodeList(how, data, p, elementSize), at, nTerm)
  }

  ghost predicate StorableLists(lists: seq<PostingList>, elementSize: nat) {
    && |lists| < SIZE_RANGE && elementSize < SIZE_RANGE
    && forall t :: 0 <= t < |lists| ==> StorableList(lists[t], elementSize)
  }

  method SerializeLists(lists: seq<PostingList>, elementSize: nat, writer: IOWriter) returns (ok: bool)
    modifies writer
    ensures ok <==> elementSize > 0 || lists == []
    ensures ok ==> writer.bytes == old(writer.bytes) + Encode(ArrayFields(lists, elementSize), |old(writer.bytes)|)
  {
    hide FieldBytes, Encode, ListFields, Joined;
    ghost var was, done: seq<Field> := writer.bytes, [];
    NothingWritten(was);
    writer.WriteScalar(|lists|);
    done := Extend(was, done, Scalar(|lists|));
    writer.WriteScalar(elementSize);
    done := Extend(was, done, Scalar(elementSize));
    ghost var header, records := done, ListRecords(lists, elementSize);
    assert header == [Scalar(|lists|), Scalar(elementSize)];
    NoRecords(header, records[..0]);
    for t := 0 to |lists|
      invariant t > 0 ==> elementSize > 0
      invariant writer.bytes == was + Encode(header + Joined(records[..t]), |was|)
    {
      var written := SerializeList(lists[t], elementSize, writer);
      if !written {
        return false;
      }
      OneMoreRecord(was, header, records, t);
    }
    assert records[..|lists|] == records;
    return true;
  }

  method DeserializeLists(reader: IOReader, elementSize: nat) returns (result: Result<seq<PostingList>>)
    requires reader.Valid()
    modifies reader
    ensures reader.Valid()
    ensures var r := DecodeLists(Copied, reader.data, old(reader.pos), elementSize);
            (result.Ok? <==> r.Ok?) && (result.Ok? ==> r == Ok((result.value, reader.pos)))
  {
    hide ScalarAt, DecodeList;
    var nTerm := reader.ReadScalar(0);
    var stored := reader.ReadScalar(0);
    if stored != elementSize {
      return Failed("stored posting element width is not the one this index reads");
    }
    ghost var decode := (p: nat) => DecodeList(Copied, reader.data, p, elementSize);
    ghost var start := reader.pos;
    var lists: seq<PostingList> := [];
    for t := 0 to nTerm
      invariant reader.Valid() && DecodeEach(decode, start, t) == Ok((lists, reader.pos))
    {
      var list := DeserializeList(reader, elementSize);
      if list.Failed? {
        EachStops(decode, start, t, nTerm);
        return Failed(list.reason);
      }
      lists := lists + [list.value];
    }
    return Ok(lists);
  }

  method MapLists(cursor: MmapCursor, elementSize: nat) returns (result: Result<seq<PostingList>>)
    requires cursor.Valid()
    modifies cursor
    ensures cursor.Valid()
    ensures var r := DecodeLists(Mapped(cursor.address), cursor.data, old(cursor.pos), elementSize);
            (result.Ok? <==> r.Ok?) && (result.Ok? ==> r == Ok((result.value, cursor.pos)))
  {
    hide ScalarAt, DecodeList;
    var nTerm := MapScalar(cursor);
    if nTerm.Failed? {
      return Failed(nTerm.reason);
    }
    var stored := MapScalar(cursor);
    if stored.Failed? {
      return Failed(stored.reason);
    }
    if stored.value != elementSize {
      return Failed("stored posting element width is not the one this index reads");
    }
    if nTerm.value > cursor.Remaining() / 8 {
      return Failed("implausible term count in index file");
    }
    ghost var decode := (p: nat) => DecodeList(Mapped(cursor.address), cursor.data, p, elementSize);
    ghost var start := cursor.pos;
    var lists: seq<PostingList> := [];
    for t := 0 to nTerm.value
      invariant cursor.Valid() && DecodeEach(decode, start, t) == Ok((lists, cursor.pos))
    {
      var list := MapList(cursor, elementSize);
      if list.Failed? {
        EachStops(decode, start, t, nTerm.value);
        return Failed(list.reason);
      }
      lists := lists + [list.value];
    }
    return Ok(lists);
  }

  /** A record that does not decode ends the run. */
  lemma {:induction false} EachStops<T>(decode: nat -> Result<(T, nat)>, pos: nat, t: nat, n: nat)
    requires t < n && DecodeEach(decode, pos, t).Ok? && decode(DecodeEach(decode, pos, t).value.1).Failed?
    ensures DecodeEach(decode, pos, n).Failed?
    decreases n
  {
    if t < n - 1 {
      EachStops(decode, pos, t, n - 1);
    }
  }

  /** All lists come back, in term order, from either reader. */
  lemma ListsRoundTrip(how: Reading, data: seq<byte>, pos: nat, lists: seq<PostingList>, elementSize: nat)
    requires StorableLists(lists, elementSize) && OnBoundary(how)
    requires HasAt(data, pos, Encode(ArrayFields(lists, elementSize), pos))
    ensures DecodeLists(how, data, pos, elementSize) == Ok((lists, pos + |Encode(ArrayFields(lists, elementSize), pos)|))
  {
    hide Encode, ScalarAt, HasAt, DecodeList, ListFields, StorableList, Joined;
    var header, records := [Scalar(|lists|), Scalar(elementSize)], ListRecords(lists, elementSize);
    HeaderReads(how, data, pos, header, Joined(records));
    var at := pos + |Encode(header, pos)|;
    EncodeAppend(header, Joined(records), pos);
    ListRecordsRead(how, data, at, lists, elementSize);
    RecordsHaveRoom(records, at);
    SitsWithin(data, at, Encode(Joined(records), at));
  }

  lemma ListRecordsRead(how: Reading, data: seq<byte>, at: nat, lists: seq<PostingList>, elementSize: nat)
    requires forall t :: 0 <= t < |lists| ==> StorableList(lists[t], elementSize)
    requires OnBoundary(how) && HasAt(data, at, Encode(Joined(ListRecords(lists, elementSize)), at))
    ensures DecodeEach((p: nat) => DecodeList(how, data, p, elementSize), at, |lists|)
            == Ok((lists, at + |Encode(Joined(ListRecords(lists, elementSize)), at)|))
    ensures forall t :: 0 <= t < |lists| ==> ListRecords(lists, elementSize)[t] != [] && ListRecords(lists, elementSize)[t][0].Scalar?
  {
    hide Encode, HasAt, DecodeList, StorableList, Joined;
    var records := ListRecords(lists, elementSize);
    forall t | 0 <= t < |lists|
      ensures DecodeList(how, data, RecordStart(records, at, t), elementSize) == Ok((lists[t], RecordStart(records, at, t + 1)))
    {
      RecordSits(data, at, records, t);
      ListRoundTrip(how, data, RecordStart(records, at, t), lists[t], elementSize);
    }
    EachReads((p: nat) => DecodeList(how, data, p, elementSize), at, records, lists, |lists|);
    assert lists[..|lists|] == lists && records[..|lists|] == records;
  }

  lemma SitsWithin(data: seq<byte>, off: nat, part: seq<byte>)
    requires HasAt(data, off, part)
    ensures off + |part| <= |data|
  {
  }

  /** Two leading scalars read back, and what follows sits behind them. */
  lemma HeaderReads(how: Reading, data: seq<byte>, pos: nat, header: seq<Field>, rest: seq<Field>)
    requires |header| == 2 && header[0].Scalar? && header[1].Scalar? && AllFit(header) && OnBoundary(how)
    requires HasAt(data, pos, Encode(header + rest, pos))
    ensures var at := pos + |Encode(header, pos)|;
            && ScalarReads(how, data, pos, header[0].x, pos + 8)
            && ScalarReads(how, data, pos + 8, header[1].x, at)
            && HasAt(data, at, Encode(rest, at))
  {
    hide ScalarAt, HasAt, Encode;
    SplitFields(data, pos, header, rest);
    ReadsBack(how, data, pos, header, 0);
    ReadsBack(how, data, pos, header, 1);
    FieldSits(data, pos, header, 0);
    PlaceEnds(header, pos);
  }

  /** Every list takes at least its 8-byte count. */
  lemma {:induction false} RecordsHaveRoom(records: seq<seq<Field>>, pos: nat)
    requires forall i :: 0 <= i < |records| ==> records[i] != [] && records[i][0].Scalar?
    ensures |Encode(Joined(records), pos)| >= 8 * |records|
  {
    hide Encode;
    if records != [] {
      var init, last := records[..|records| - 1], records[|records| - 1];
      RecordsHaveRoom(init, pos);
      EncodeAppend(Joined(init), last, pos);
      FirstScalar(last, pos + |Encode(Joined(init), pos)|);
    }
  }

  lemma FirstScalar(fields: seq<Field>, pos: nat)
    requires fields != [] && fields[0].Scalar?
    ensures |Encode(fields, pos)| >= 8
  {
    assert fields == [fields[0]] + fields[1..];
    EncodeAppend([fields[0]], fields[1..], pos);
    assert [fields[0]][..0] == [];
  }

  /** The header and every list are in the stream to their ends, the values on their own boundary. */
  ghost predicate ListsWhole(address: nat, limit: nat, lists: seq<PostingList>, elementSize: nat, pos: nat) {
    && pos + 16 <= limit
    && AllWhole(lists, pos + 16, (l: PostingList, p: nat) => ListEnd(l, elementSize, p),
                (l: PostingList, p: nat) => ListWhole(address, limit, l, elementSize, p))
  }

  /**
   * Over any bytes on an 8-aligned mapping: the mapped reader accepts exactly the copied posting
   * lists that are all there and aligned, and gives the same.
   */
  lemma ListsReadersAgree(address: nat, data: seq<byte>, pos: nat, elementSize: nat)
    requires pos <= |data| && address % 8 == 0
    ensures var mapped, copied := DecodeLists(Mapped(address), data, pos, elementSize), DecodeLists(Copied, data, pos, elementSize);
            && (mapped.Ok? ==> copied == mapped)
            && (mapped.Ok? <==> copied.Ok? && ListsWhole(address, |data|, copied.value.0, elementSize, pos))
  {
    hide ScalarAt, DecodeList, ListEnd, ListWhole;
    ScalarAgrees(address, data, pos, 0);
    var (nTerm, afterCount) := ScalarAt(Copied, data, pos, 0).value;
    ScalarAgrees(address, data, afterCount, 0);
    var at := ScalarAt(Copied, data, afterCount, 0).value.1;
    var end := (l: PostingList, p: nat) => ListEnd(l, elementSize, p);
    var whole := (l: PostingList, p: nat) => ListWhole(address, |data|, l, elementSize, p);
    forall p: nat | p <= |data|
      ensures var mapped, copied := DecodeList(Mapped(address), data, p, elementSize), DecodeList(Copied, data, p, elementSize);
              && (mapped.Ok? ==> copied == mapped && mapped.value.1 == end(mapped.value.0, p))
              && (copied.Ok? ==> p <= copied.value.1 <= |data|)
              && (mapped.Ok? <==> copied.Ok? && whole(copied.value.0, p))
    {
      ListReadersAgree(address, data, p, elementSize);
    }
    EachAgrees((p: nat) => DecodeList(Mapped(address), data, p, elementSize),
               (p: nat) => DecodeList(Copied, data, p, elementSize), at, nTerm, |data|, end, whole);
    var each := DecodeEach((p: nat) => DecodeList(Mapped(address), data, p, elementSize), at, nTerm);
    if each.Ok? {
      RunHasRoom(each.value.0, at, end);
    }
  }

  /** A posting list cut off before its count: copied as an empty list, refused by the mapped reader. */
  lemma TruncatedList(address: nat)
    ensures DecodeList(Copied, [], 0, 4) == Ok((PostingList([], []), 0))
    ensures DecodeList(Mapped(address), [], 0, 4).Failed?
  {
    EmptyArrayEnd([], 0, 4, 4);
    EmptyArrayEnd([], 0, 1, 4);
  }
}
