/** Alignment padding, and the writer and cursor it advances. */
module Align {
  import opened InvertedLists

  /** How far a position is from the next boundary, or the error of a boundary of width zero. */
  function PaddingFor(pos: nat, alignment: nat): (r: Result<nat>)
    ensures r.Failed? <==> alignment == 0
    ensures r.Ok? ==> r.value < alignment && (pos + r.value) % alignment == 0
  {
    if alignment == 0 then Failed("index file declares a zero element width")
    else
      PaddingReaches(pos, alignment);
      Ok((alignment - pos % alignment) % alignment)
  }

  lemma PaddingReaches(pos: nat, alignment: nat)
    requires alignment > 0
    ensures (pos + (alignment - pos % alignment) % alignment) % alignment == 0
  {
    var q, r := pos / alignment, pos % alignment;
    if r == 0 {
      DivideUnique(alignment, alignment, 1, 0);
    } else {
      DivideUnique(alignment - r, alignment, 0, alignment - r);
      assert pos + (alignment - r) == alignment * q + alignment == alignment * (q + 1);
      DivideUnique(pos + (alignment - r), alignment, q + 1, 0);
    }
  }

  /** Multiples of a are at least a apart. */
  lemma {:induction false} Separate(a: nat, x: nat, y: nat)
    requires x < y
    ensures a * x + a <= a * y
    decreases y - x
  {
    assert a * (x + 1) == a * x + a;
    if x + 1 < y {
      Separate(a, x + 1, y);
    }
  }

  /** Quotient and remainder are unique. */
  lemma DivideUnique(x: nat, a: nat, q: nat, r: nat)
    requires a > 0 && x == a * q + r && r < a
    ensures x / a == q && x % a == r
  {
    var d, m := x / a, x % a;
    assert x == a * d + m;
    if d < q {
      Separate(a, d, q);
    } else if q < d {
      Separate(a, q, d);
    }
  }

  /** inline_align_up: the next multiple at or above the offset. */
  function AlignUp(offset: nat, alignment: nat): (up: nat)
    requires alignment > 0
    ensures up % alignment == 0 && offset <= up < offset + alignment
  {
    var q := (offset + alignment - 1) / alignment;
    var up := q * alignment;
    assert up == alignment * q;
    DivideUnique(up, alignment, q, 0);
    up
  }

  /** Only one multiple lies within one alignment above an offset. */
  lemma SameUp(offset: nat, a: nat, up: nat)
    requires a > 0 && up % a == 0 && offset <= up < offset + a
    ensures up == offset + PaddingFor(offset, a).value
  {
    var other := offset + PaddingFor(offset, a).value;
    var x, y := up / a, other / a;
    assert up == a * x && other == a * y;
    if x < y {
      Separate(a, x, y);
    } else if y < x {
      Separate(a, y, x);
    }
  }

  /** The next multiple is reached by exactly the padding the stream writers insert. */
  lemma AlignUpPads(offset: nat, alignment: nat)
    requires alignment > 0
    ensures AlignUp(offset, alignment) == offset + PaddingFor(offset, alignment).value
  {
    SameUp(offset, alignment, AlignUp(offset, alignment));
  }
}
