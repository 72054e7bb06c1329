/**
 * The byte streams an index is written to and read from, with the padding that lets an array be
 * borrowed in place, and what the copying and the mapped reader make of any bytes.
 */
module Streams {
  import opened Bytes
  import opened Align
  import opened Ranker
  import opened InvertedLists

  /** An output stream: what has been written so far. */
  class IOWriter {
    var bytes: seq<byte>

    constructor (bytes: seq<byte>)
      ensures this.bytes == bytes
    {
      this.bytes := bytes;
    }

    function Pos(): nat
      reads this
    {
      |bytes|
    }

    method Write(data: seq<byte>)
      modifies this
      ensures bytes == old(bytes) + data
    {
      bytes := bytes + data;
    }

    /** Pads so that the next write starts on a boundary; there is none for a zero width. */
    method PadTo(alignment: nat) returns (ok: bool)
      modifies this
      ensures ok <==> alignment > 0
      ensures bytes == old(bytes) + Zeros(PadCount(|old(bytes)|, alignment))
      ensures ok ==> |bytes| % alignment == 0
    {
      var n := PaddingFor(Pos(), alignment);
      if n.Failed? {
        return false;
      }
      if n.value > 0 {
        Write(Zeros(n.value));
      }
      return true;
    }

    method WriteScalar(x: nat)
      modifies this
      ensures bytes == old(bytes) + FieldBytes(Scalar(x), |old(bytes)|)
    {
      Write(LE(x, 8));
    }

    /** write_padded: the padding is written whether or not the array is empty. */
    method WritePadded(items: seq<nat>, width: nat, alignment: nat) returns (ok: bool)
      modifies this
      ensures ok <==> alignment > 0
      ensures ok ==> bytes == old(bytes) + FieldBytes(Padded(items, width, alignment), |old(bytes)|)
    {
      ghost var was := bytes;
      ok := PadTo(alignment);
      if !ok {
        return;
      }
      if |items| > 0 {
        Write(Flat(Ints(items, width)));
      }
      assert bytes == was + (Zeros(PadCount(|was|, alignment)) + Flat(Ints(items, width)));
    }
  }

  /** Bounds-checked reading over mapped bytes; a failed read leaves the position alone. */
  class MmapCursor {
    const data: seq<byte>
    const address: nat
    var pos: nat

    ghost predicate Valid()
      reads this
    {
      pos <= |data|
    }

    constructor (data: seq<byte>, address: nat)
      ensures Valid() && this.data == data && this.address == address && pos == 0
    {
      this.data, this.address, pos := data, address, 0;
    }

    function Remaining(): nat
      requires Valid()
      reads this
    {
      |data| - pos
    }

    method ReadScalar(width: nat) returns (result: Result<nat>)
      requires Valid()
      modifies this
      ensures Valid()
      ensures result.Ok? <==> width <= |data| - old(pos)
      ensures result.Ok? ==> result.value == ReadAt(data, old(pos), width) && pos == old(pos) + width
      ensures result.Failed? ==> pos == old(pos)
    {
      if width > Remaining() {
        return Failed("unexpected end of index file");
      }
      result := Ok(ReadAt(data, pos, width));
      pos := pos + width;
    }

    /** Borrows n elements in place: their start, or none for an empty array. */
    method ReadArray(n: nat, width: nat, alignment: nat) returns (result: Result<Option<nat>>)
      requires Valid() && width > 0 && alignment > 0
      modifies this
      ensures Valid()
      ensures n == 0 ==> result == Ok(None) && pos == old(pos)
      ensures n > 0 ==> (result.Ok? <==> width * n <= |data| - old(pos) && (address + old(pos)) % alignment == 0)
      ensures n > 0 && result.Ok? ==> result.value == Some(old(pos)) && pos == old(pos) + width * n
      ensures result.Failed? ==> pos == old(pos)
    {
      if n == 0 {
        return Ok(None);
      }
      DivideBounds(n, width, Remaining());
      if n > Remaining() / width {
        return Failed("unexpected end of index file");
      }
      if (address + pos) % alignment != 0 {
        return Failed("array is misaligned for its element type");
      }
      result := Ok(Some(pos));
      pos := pos + width * n;
    }

    method Skip(bytes: nat) returns (ok: bool)
      requires Valid()
      modifies this
      ensures Valid()
      ensures ok <==> bytes <= |data| - old(pos)
      ensures pos == if ok then old(pos) + bytes else old(pos)
    {
      if bytes > Remaining() {
        return false;
      }
      pos := pos + bytes;
      return true;
    }
  }

  /** Comparing by division is comparing the products, without forming them. */
  lemma DivideBounds(n: nat, w: nat, room: nat)
    requires w > 0
    ensures n <= room / w <==> w * n <= room
  {
    var q := room / w;
    assert room == w * q + room % w;
    if n <= q {
      ProductMonotone(w, n, q);
    } else {
      Separate(w, q, n);
    }
  }

  lemma ProductMonotone(w: nat, a: nat, b: nat)
    requires a <= b
    ensures w * a <= w * b
  {
  }

  // ---------------------------------------------------------------- what a stream holds

  /** An 8-byte scalar, or an array of fixed-width integers behind its padding. */
  datatype Field = Scalar(x: nat) | Padded(items: seq<nat>, width: nat, alignment: nat)

  function PadCount(pos: nat, alignment: nat): nat {
    if alignment == 0 then 0 else PaddingFor(pos, alignment).value
  }

  function FieldBytes(f: Field, pos: nat): seq<byte> {
    match f
    case Scalar(x) => LE(x, 8)
    case Padded(items, width, alignment) => Zeros(PadCount(pos, alignment)) + Flat(Ints(items, width))
  }

  /** The fields one after the other, from stream offset pos on. */
  function Encode(fields: seq<Field>, pos: nat): seq<byte> {
    if fields == [] then []
    else
      var init := Encode(fields[..|fields| - 1], pos);
      init + FieldBytes(fields[|fields| - 1], pos + |init|)
  }

  lemma EncodeSnoc(fields: seq<Field>, f: Field, pos: nat)
    ensures Encode(fields + [f], pos) == Encode(fields, pos) + FieldBytes(f, pos + |Encode(fields, pos)|)
  {
    hide FieldBytes;
    assert (fields + [f])[..|fields|] == fields;
  }

  lemma {:induction false} EncodeAppend(a: seq<Field>, b: seq<Field>, pos: nat)
    ensures Encode(a + b, pos) == Encode(a, pos) + Encode(b, pos + |Encode(a, pos)|)
  {
    hide FieldBytes;
    if b == [] {
      assert a + b == a;
    } else {
      var init, f := b[..|b| - 1], b[|b| - 1];
      assert a + b == (a + init) + [f];
      EncodeAppend(a, init, pos);
      EncodeSnoc(a + init, f, pos);
    }
  }

  lemma NothingWritten(was: seq<byte>)
    ensures was + Encode([], |was|) == was
  {
  }

  /** One more field behind those already written. */
  lemma Extend(was: seq<byte>, done: seq<Field>, f: Field) returns (more: seq<Field>)
    ensures more == done + [f]
    ensures was + Encode(more, |was|) ==
            was + Encode(done, |was|) + FieldBytes(f, |was + Encode(done, |was|)|)
  {
    hide FieldBytes, Encode;
    more := done + [f];
    EncodeSnoc(done, f, |was|);
  }

  /** The stream offset of field i. */
  function Place(fields: seq<Field>, pos: nat, i: nat): nat
    requires i <= |fields|
  {
    pos + |Encode(fields[..i], pos)|
  }

  /** Every field sits where the ones before it end. */
  lemma FieldSits(data: seq<byte>, pos: nat, fields: seq<Field>, i: nat)
    requires HasAt(data, pos, Encode(fields, pos)) && i < |fields|
    ensures HasAt(data, Place(fields, pos, i), FieldBytes(fields[i], Place(fields, pos, i)))
    ensures Place(fields, pos, i + 1) == Place(fields, pos, i) + |FieldBytes(fields[i], Place(fields, pos, i))|
  {
    hide FieldBytes, Encode, HasAt;
    var before, f, after := fields[..i], fields[i], fields[i + 1..];
    assert fields == (before + [f]) + after && fields[..i + 1] == before + [f];
    EncodeAppend(before + [f], after, pos);
    EncodeSnoc(before, f, pos);
    var head, mid := Encode(before, pos), FieldBytes(f, Place(fields, pos, i));
    var tail := Encode(after, pos + |head + mid|);
    assert Encode(fields, pos) == head + mid + tail;
    HasMiddle(head, mid, tail);
    HasInner(data, pos, Encode(fields, pos), |head|, mid);
  }

  /** Two runs of fields sit one behind the other. */
  lemma SplitFields(data: seq<byte>, pos: nat, a: seq<Field>, b: seq<Field>)
    requires HasAt(data, pos, Encode(a + b, pos))
    ensures HasAt(data, pos, Encode(a, pos)) && HasAt(data, pos + |Encode(a, pos)|, Encode(b, pos + |Encode(a, pos)|))
    ensures |Encode(a + b, pos)| == |Encode(a, pos)| + |Encode(b, pos + |Encode(a, pos)|)|
  {
    hide HasAt, Encode;
    EncodeAppend(a, b, pos);
    var head, tail := Encode(a, pos), Encode(b, pos + |Encode(a, pos)|);
    HasMiddle([], head, tail);
    HasMiddle(head, tail, []);
    assert [] + head + tail == Encode(a + b, pos) && head + tail + [] == Encode(a + b, pos);
    HasInner(data, pos, Encode(a + b, pos), 0, head);
    HasInner(data, pos, Encode(a + b, pos), |head|, tail);
  }

  // ---------------------------------------------------------------- what a reader makes of bytes

  /** Copied out of a stream, or borrowed from a mapping that starts at an address. */
  datatype Reading = Copied | Mapped(address: nat)

  /**
   * A scalar at a position, and the position behind it. The mapped reader refuses a short read; the
   * copying one keeps what bytes there are, or the variable's initial value when there are none.
   */
  function ScalarAt(how: Reading, data: seq<byte>, pos: nat, initial: nat): Result<(nat, nat)> {
    if pos + 8 <= |data| then Ok((ReadAt(data, pos, 8), pos + 8))
    else if how.Mapped? then Failed("unexpected end of index file")
    else if pos < |data| then Ok((FromLE(data[pos..]), |data|))
    else Ok((initial, pos))
  }

  function ArrayAt(data: seq<byte>, start: nat, n: nat, width: nat): (items: seq<nat>)
    requires start + width * n <= |data|
    ensures |items| == n
  {
    seq(n, i requires 0 <= i < n => WithinRows(width, i, n); ReadAt(data, start + width * i, width))
  }

  /** Where an array's bytes start: at `wanted`, or at the end of a stream too short for its padding. */
  function ArrayStart(data: seq<byte>, pos: nat, wanted: nat): nat {
    if wanted <= |data| then wanted else if pos <= |data| then |data| else pos
  }

  /** The bytes of n elements. */
  function ArraySize(n: nat, width: nat): (size: nat)
    ensures n > 0 && width > 0 ==> size > 0
  {
    width * n
  }

  predicate Misaligned(how: Reading, start: nat, width: nat)
    requires width > 0
  {
    how.Mapped? && (how.address + start) % width != 0
  }

  /** An array whose padding ends at `wanted`, and the position behind it. */
  function ArrayFrom(how: Reading, data: seq<byte>, pos: nat, wanted: nat, n: nat, width: nat): (r: Result<(seq<nat>, nat)>)
    requires width > 0
    ensures r.Ok? ==> |r.value.0| == n
  {
    var start := ArrayStart(data, pos, wanted);
    var end: nat := start + ArraySize(n, width);
    if how.Mapped? && wanted > |data| then Failed("unexpected end of index file")
    else if n == 0 then Ok(([], start))
    else if end > |data| then Failed("truncated array in index file")
    else if Misaligned(how, start, width) then Failed("array is misaligned for its element type")
    else Ok((ArrayAt(data, start, n, width), end))
  }

  /** An array behind its padding, and the position behind it. */
  function PaddedAt(how: Reading, data: seq<byte>, pos: nat, n: nat, width: nat, alignment: nat): (r: Result<(seq<nat>, nat)>)
    requires width > 0
    ensures r.Ok? ==> |r.value.0| == n
  {
    if alignment == 0 then Failed("index file declares a zero element width")
    else ArrayFrom(how, data, pos, pos + PadCount(pos, alignment), n, width)
  }

  /** Where n elements behind their padding end. */
  function PaddedEnd(pos: nat, n: nat, width: nat, alignment: nat): (end: nat)
    ensures end >= pos
  {
    pos + PadCount(pos, alignment) + ArraySize(n, width)
  }

  /** The mapped reader takes a scalar, the very one copied, exactly when all of it is there. */
  lemma ScalarAgrees(address: nat, data: seq<byte>, pos: nat, initial: nat)
    requires pos <= |data|
    ensures ScalarAt(Mapped(address), data, pos, initial).Ok? <==> pos + 8 <= |data|
    ensures ScalarAt(Mapped(address), data, pos, initial).Ok? ==>
              ScalarAt(Copied, data, pos, initial) == ScalarAt(Mapped(address), data, pos, initial)
    ensures ScalarAt(Copied, data, pos, initial).Ok?
    ensures ScalarAt(Copied, data, pos, initial).value.1 == if pos + 8 <= |data| then pos + 8 else |data|
  {
  }

  /** Whatever array the mapped reader takes, the copying one takes too. */
  lemma PaddedAgrees(address: nat, data: seq<byte>, pos: nat, n: nat, width: nat, alignment: nat)
    requires width > 0 && pos <= |data|
    ensures PaddedAt(Mapped(address), data, pos, n, width, alignment).Ok? ==>
              PaddedAt(Copied, data, pos, n, width, alignment) == PaddedAt(Mapped(address), data, pos, n, width, alignment)
    ensures PaddedAt(Mapped(address), data, pos, n, width, alignment).Ok? ==> PaddedEnd(pos, n, width, alignment) <= |data|
    ensures var r := PaddedAt(Copied, data, pos, n, width, alignment); r.Ok? ==>
              r.value.1 == if PaddedEnd(pos, n, width, alignment) <= |data| then PaddedEnd(pos, n, width, alignment) else |data|
  {
  }

  /** Over an 8-aligned mapping the mapped reader takes exactly the copied arrays that are all there, padding included. */
  lemma PaddedWhole(address: nat, data: seq<byte>, pos: nat, n: nat, width: nat, alignment: nat)
    requires pos <= |data| && address % 8 == 0 && (width == 1 || Addressable(width, alignment))
    ensures PaddedAt(Mapped(address), data, pos, n, width, alignment).Ok? <==>
            PaddedAt(Copied, data, pos, n, width, alignment).Ok? && PaddedEnd(pos, n, width, alignment) <= |data|
  {
    hide PadCount, ArrayAt;
    if width > 1 {
      StartAligned(address, pos, width, alignment);
    }
  }

  /** Over an 8-aligned mapping they differ only where the padding of an empty array is cut off. */
  lemma PaddedDiffers(address: nat, data: seq<byte>, pos: nat, n: nat, width: nat, alignment: nat)
    requires pos <= |data| && address % 8 == 0 && Addressable(width, alignment)
    ensures PaddedAt(Mapped(address), data, pos, n, width, alignment).Ok? <==>
            PaddedAt(Copied, data, pos, n, width, alignment).Ok? && pos + PadCount(pos, alignment) <= |data|
    ensures n > 0 && PaddedAt(Copied, data, pos, n, width, alignment).Ok? ==> pos + PadCount(pos, alignment) <= |data|
  {
    hide PadCount, ArrayAt, ArraySize;
    StartAligned(address, pos, width, alignment);
  }

  /** Widths and paddings that keep every element loadable from an 8-aligned mapping. */
  predicate Addressable(width: nat, alignment: nat) {
    && (alignment == 1 || alignment == 2 || alignment == 4 || alignment == 8)
    && (width == 1 || width == alignment)
  }

  lemma StartAligned(address: nat, pos: nat, width: nat, alignment: nat)
    requires address % 8 == 0 && Addressable(width, alignment)
    ensures (address + (pos + PadCount(pos, alignment))) % alignment == 0
    ensures (address + (pos + PadCount(pos, alignment))) % width == 0
  {
    hide PadCount;
    PadReaches(pos, alignment);
    SumAligned(address, pos + PadCount(pos, alignment), alignment);
    SumAligned(address, pos + PadCount(pos, alignment), 1);
  }

  lemma SumAligned(address: nat, start: nat, alignment: nat)
    requires alignment == 1 || alignment == 2 || alignment == 4 || alignment == 8
    requires address % 8 == 0 && start % alignment == 0
    ensures (address + start) % alignment == 0
  {
    if alignment == 2 {
      SumHalves(address, start);
    } else if alignment == 4 {
      SumQuarters(address, start);
    } else if alignment == 8 {
      SumEighths(address, start);
    }
  }

  lemma SumHalves(address: nat, start: nat)
    requires address % 8 == 0 && start % 2 == 0
    ensures (address + start) % 2 == 0
  {
  }

  lemma SumQuarters(address: nat, start: nat)
    requires address % 8 == 0 && start % 4 == 0
    ensures (address + start) % 4 == 0
  {
  }

  lemma SumEighths(address: nat, start: nat)
    requires address % 8 == 0 && start % 8 == 0
    ensures (address + start) % 8 == 0
  {
  }

  lemma PadReaches(pos: nat, alignment: nat)
    requires alignment > 0
    ensures (pos + PadCount(pos, alignment)) % alignment == 0
  {
  }

  // ---------------------------------------------------------------- reading back what was written

  /** The values fit their fields, and a mapping can load them. */
  predicate Fits(f: Field) {
    match f
    case Scalar(x) => x < Pow256(8)
    case Padded(items, width, alignment) =>
      Addressable(width, alignment) && forall i :: 0 <= i < |items| ==> items[i] < Pow256(width)
  }

  ghost predicate AllFit(fields: seq<Field>) {
    forall i :: 0 <= i < |fields| ==> Fits(fields[i])
  }

  ghost predicate OnBoundary(how: Reading) {
    how.Mapped? ==> how.address % 8 == 0
  }

  /** A scalar reads as x, whatever the variable held before. */
  ghost predicate ScalarReads(how: Reading, data: seq<byte>, at: nat, x: nat, next: nat) {
    forall initial: nat :: ScalarAt(how, data, at, initial) == Ok((x, next))
  }

  ghost predicate FieldReads(how: Reading, data: seq<byte>, f: Field, at: nat, next: nat) {
    match f
    case Scalar(x) => ScalarReads(how, data, at, x, next)
    case Padded(items, width, alignment) => width > 0 && PaddedAt(how, data, at, |items|, width, alignment) == Ok((items, next))
  }

  /** Either reader finds every field again, and ends where it ends. */
  lemma ReadsBack(how: Reading, data: seq<byte>, pos: nat, fields: seq<Field>, i: nat)
    requires HasAt(data, pos, Encode(fields, pos)) && i < |fields| && Fits(fields[i]) && OnBoundary(how)
    ensures FieldReads(how, data, fields[i], Place(fields, pos, i), Place(fields, pos, i + 1))
    ensures pos <= Place(fields, pos, i) <= Place(fields, pos, i + 1) <= |data|
  {
    hide Encode, HasAt, LE, Flat, PaddingFor;
    FieldSits(data, pos, fields, i);
    var at, f := Place(fields, pos, i), fields[i];
    match f
    case Scalar(x) =>
      ReadsScalar(data, at, x, 8);
    case Padded(items, width, alignment) =>
      ArrayReads(how, data, at, items, width, alignment);
  }

  lemma ArrayReads(how: Reading, data: seq<byte>, at: nat, items: seq<nat>, width: nat, alignment: nat)
    requires HasAt(data, at, FieldBytes(Padded(items, width, alignment), at)) && Fits(Padded(items, width, alignment)) && OnBoundary(how)
    ensures at <= at + |FieldBytes(Padded(items, width, alignment), at)| <= |data|
    ensures PaddedAt(how, data, at, |items|, width, alignment) == Ok((items, at + |FieldBytes(Padded(items, width, alignment), at)|))
  {
    hide LE, PaddingFor, PadCount, HasAt, Flat, Ints, ArrayAt;
    var wanted := at + PadCount(at, alignment);
    BytesBehindPadding(data, at, items, width, alignment);
    ElementsRead(data, wanted, items, width);
    if how.Mapped? {
      StartAligned(how.address, at, width, alignment);
    }
  }

  lemma BytesBehindPadding(data: seq<byte>, at: nat, items: seq<nat>, width: nat, alignment: nat)
    requires HasAt(data, at, FieldBytes(Padded(items, width, alignment), at))
    ensures HasAt(data, at + PadCount(at, alignment), Flat(Ints(items, width)))
    ensures |FieldBytes(Padded(items, width, alignment), at)| == PadCount(at, alignment) + |Flat(Ints(items, width))|
  {
    hide LE, PaddingFor, PadCount, HasAt, Flat, Ints;
    var pad, body := Zeros(PadCount(at, alignment)), Flat(Ints(items, width));
    HasMiddle(pad, body, []);
    assert pad + body + [] == FieldBytes(Padded(items, width, alignment), at);
    HasInner(data, at, FieldBytes(Padded(items, width, alignment), at), |pad|, body);
  }

  lemma ElementsRead(data: seq<byte>, start: nat, items: seq<nat>, width: nat)
    requires HasAt(data, start, Flat(Ints(items, width))) && forall i :: 0 <= i < |items| ==> items[i] < Pow256(width)
    ensures |Flat(Ints(items, width))| == width * |items| && start + width * |items| <= |data|
    ensures ArrayAt(data, start, |items|, width) == items
  {
    hide LE, Flat, Ints, ReadAt;
    FlatLength(Ints(items, width), width);
    forall i | 0 <= i < |items|
      ensures ArrayAt(data, start, |items|, width)[i] == items[i]
    {
      ReadsElement(data, start, items, width, i);
    }
  }

  // ---------------------------------------------------------------- the two readers

  /** Reading from a stream: a short scalar read goes unnoticed, a short array read does not. */
  class IOReader {
    const data: seq<byte>
    var pos: nat

    ghost predicate Valid()
      reads this
    {
      pos <= |data|
    }

    constructor (data: seq<byte>)
      ensures Valid() && this.data == data && pos == 0
    {
      this.data, pos := data, 0;
    }

    /** Copies what is left of n bytes. */
    method Read(n: nat) returns (bytes: seq<byte>)
      requires Valid()
      modifies this
      ensures Valid() && pos == (if old(pos) + n <= |data| then old(pos) + n else |data|)
      ensures bytes == data[old(pos)..pos]
    {
      var end := if pos + n <= |data| then pos + n else |data|;
      bytes := data[pos..end];
      pos := end;
    }

    method ReadScalar(initial: nat) returns (x: nat)
      requires Valid()
      modifies this
      ensures Valid() && ScalarAt(Copied, data, old(pos), initial) == Ok((x, pos))
    {
      ghost var at := pos;
      var bytes := Read(8);
      x := if bytes == [] then initial else FromLE(bytes);
      if at + 8 > |data| {
        assert data[at..|data|] == data[at..];
      }
    }

    method ReadPadded(n: nat, width: nat, alignment: nat) returns (result: Result<seq<nat>>)
      requires Valid() && width > 0
      modifies this
      ensures Valid()
      ensures result.Ok? <==> PaddedAt(Copied, data, old(pos), n, width, alignment).Ok?
      ensures result.Ok? ==> PaddedAt(Copied, data, old(pos), n, width, alignment) == Ok((result.value, pos))
    {
      var padding := PaddingFor(pos, alignment);
      if padding.Failed? {
        return Failed(padding.reason);
      }
      if padding.value > 0 {
        var _ := Read(padding.value);
      }
      if n == 0 {
        return Ok([]);
      }
      var start := pos;
      var bytes := Read(width * n);
      if |bytes| != width * n {
        return Failed("truncated array in index file");
      }
      return Ok(ArrayAt(data, start, n, width));
    }
  }

  /** borrow_padded: the array in place, behind its padding. */
  method BorrowPadded(cursor: MmapCursor, n: nat, width: nat, alignment: nat) returns (result: Result<seq<nat>>)
    requires cursor.Valid() && width > 0
    modifies cursor
    ensures cursor.Valid()
    ensures result.Ok? <==> PaddedAt(Mapped(cursor.address), cursor.data, old(cursor.pos), n, width, alignment).Ok?
    ensures result.Ok? ==>
              PaddedAt(Mapped(cursor.address), cursor.data, old(cursor.pos), n, width, alignment) == Ok((result.value, cursor.pos))
  {
    var padding := PaddingFor(cursor.pos, alignment);
    if padding.Failed? {
      return Failed(padding.reason);
    }
    var skipped := cursor.Skip(padding.value);
    if !skipped {
      return Failed("unexpected end of index file");
    }
    var borrowed := cursor.ReadArray(n, width, width);
    if borrowed.Failed? {
      return Failed(borrowed.reason);
    }
    return Ok(if borrowed.value.None? then [] else ArrayAt(cursor.data, borrowed.value.value, n, width));
  }

  /** Reads a scalar from a mapping. */
  method MapScalar(cursor: MmapCursor) returns (result: Result<nat>)
    requires cursor.Valid()
    modifies cursor
    ensures cursor.Valid()
    ensures forall initial: nat ::
              (result.Ok? <==> ScalarAt(Mapped(cursor.address), cursor.data, old(cursor.pos), initial).Ok?)
              && (result.Ok? ==> ScalarAt(Mapped(cursor.address), cursor.data, old(cursor.pos), initial) == Ok((result.value, cursor.pos)))
  {
    result := cursor.ReadScalar(8);
  }
}
