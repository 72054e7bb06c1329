/** Little-endian integers and arrays of fixed-width records in a byte sequence. */
module Bytes {
  type byte = x: nat | x < 256

  /** 256 to the n. */
  function Pow256(n: nat): (p: nat)
    ensures p > 0
  {
    if n == 0 then 1 else 256 * Pow256(n - 1)
  }

  lemma PowValues()
    ensures Pow256(1) == 0x100 && Pow256(2) == 0x1_0000 && Pow256(4) == 0x1_0000_0000
    ensures Pow256(8) == 0x1_0000_0000_0000_0000
  {
    assert Pow256(0) == 1;
    assert Pow256(1) == 256;
    assert Pow256(2) == 0x1_0000;
    assert Pow256(3) == 0x100_0000;
    assert Pow256(4) == 0x1_0000_0000;
    assert Pow256(5) == 0x100_0000_0000;
    assert Pow256(6) == 0x1_0000_0000_0000;
    assert Pow256(7) == 0x100_0000_0000_0000;
  }

  /** The low n bytes of x, least significant first: storing x in n bytes. */
  function LE(x: nat, n: nat): (b: seq<byte>)
    ensures |b| == n
  {
    if n == 0 then [] else [x % 256] + LE(x / 256, n - 1)
  }

  function FromLE(b: seq<byte>): nat {
    if b == [] then 0 else b[0] + 256 * FromLE(b[1..])
  }

  lemma {:induction false} FromLEBound(b: seq<byte>)
    ensures FromLE(b) < Pow256(|b|)
  {
    if b != [] {
      FromLEBound(b[1..]);
    }
  }

  /** Storing in n bytes keeps the value modulo 256^n: the truncation of a narrowing cast. */
  lemma {:induction false} LERoundTrip(x: nat, n: nat)
    requires x < Pow256(n)
    ensures FromLE(LE(x, n)) == x
  {
    if n > 0 {
      assert LE(x, n)[1..] == LE(x / 256, n - 1);
      LERoundTrip(x / 256, n - 1);
    }
  }

  /** A scalar of n bytes read at an offset. */
  function ReadAt(b: seq<byte>, off: nat, n: nat): (x: nat)
    requires off + n <= |b|
    ensures x < Pow256(n)
  {
    FromLEBound(b[off..off + n]);
    FromLE(b[off..off + n])
  }

  function Zeros(n: nat): (b: seq<byte>)
    ensures |b| == n
  {
    seq(n, _ => 0)
  }

  /** Padding is made of zero bytes only. */
  lemma AllZeroBytes(n: nat)
    ensures forall i :: 0 <= i < n ==> Zeros(n)[i] == 0
  {
  }

  // ---------------------------------------------------------------- slices

  /** `part` sits in b at offset off. */
  ghost predicate HasAt(b: seq<byte>, off: nat, part: seq<byte>) {
    off + |part| <= |b| && b[off..off + |part|] == part
  }

  lemma HasMiddle(pre: seq<byte>, part: seq<byte>, post: seq<byte>)
    ensures HasAt(pre + part + post, |pre|, part)
  {
  }

  lemma HasInner(b: seq<byte>, off: nat, part: seq<byte>, inner: nat, piece: seq<byte>)
    requires HasAt(b, off, part) && HasAt(part, inner, piece)
    ensures HasAt(b, off + inner, piece)
  {
    var cut := b[off..off + |part|];
    assert cut == part;
    forall k | 0 <= k < |piece|
      ensures b[off + inner + k] == piece[k]
    {
      assert b[off + inner + k] == cut[inner + k];
      assert part[inner..inner + |piece|][k] == piece[k];
    }
  }

  /** A scalar found in place reads back. */
  lemma ReadsScalar(b: seq<byte>, off: nat, x: nat, n: nat)
    requires HasAt(b, off, LE(x, n)) && x < Pow256(n)
    ensures off + n <= |b| && ReadAt(b, off, n) == x
  {
    LERoundTrip(x, n);
  }

  // ---------------------------------------------------------------- arrays

  function Flat(chunks: seq<seq<byte>>): seq<byte> {
    if chunks == [] then [] else Flat(chunks[..|chunks| - 1]) + chunks[|chunks| - 1]
  }

  ghost predicate Wide(chunks: seq<seq<byte>>, w: nat) {
    forall i :: 0 <= i < |chunks| ==> |chunks[i]| == w
  }

  lemma OneMore(w: nat, n: nat)
    ensures w * (n + 1) == w * n + w
  {
  }

  lemma WithinRows(w: nat, i: nat, n: nat)
    requires i < n
    ensures 0 <= w * i && w * i + w <= w * n
  {
    OneMore(w, i);
    if i + 1 < n {
      WithinRows(w, i, n - 1);
      OneMore(w, n - 1);
    }
  }

  /** A fixed-width array's length, and where its i-th record sits. */
  lemma {:induction false} FlatLength(chunks: seq<seq<byte>>, w: nat)
    requires Wide(chunks, w)
    ensures |Flat(chunks)| == w * |chunks|
  {
    if chunks != [] {
      FlatLength(chunks[..|chunks| - 1], w);
      OneMore(w, |chunks| - 1);
    }
  }

  lemma {:induction false} FlatAt(chunks: seq<seq<byte>>, w: nat, i: nat)
    requires Wide(chunks, w) && i < |chunks|
    ensures HasAt(Flat(chunks), w * i, chunks[i])
  {
    var init, last := chunks[..|chunks| - 1], chunks[|chunks| - 1];
    FlatLength(init, w);
    if i < |init| {
      FlatAt(init, w, i);
      HasMiddle([], Flat(init), last);
      assert [] + Flat(init) + last == Flat(chunks);
      HasInner(Flat(chunks), 0, Flat(init), w * i, chunks[i]);
    } else {
      HasMiddle(Flat(init), last, []);
      assert Flat(init) + last + [] == Flat(chunks);
    }
  }

  /** The integers, each in w bytes. */
  function Ints(xs: seq<nat>, w: nat): (chunks: seq<seq<byte>>)
    ensures |chunks| == |xs| && Wide(chunks, w)
    ensures forall i :: 0 <= i < |xs| ==> chunks[i] == LE(xs[i], w)
  {
    seq(|xs|, i requires 0 <= i < |xs| => LE(xs[i], w))
  }

  /** An integer of an array found in place reads back. */
  lemma ReadsElement(b: seq<byte>, off: nat, xs: seq<nat>, w: nat, i: nat)
    requires HasAt(b, off, Flat(Ints(xs, w))) && i < |xs| && xs[i] < Pow256(w)
    ensures off + w * i + w <= |b| && ReadAt(b, off + w * i, w) == xs[i]
  {
    FlatAt(Ints(xs, w), w, i);
    HasInner(b, off, Flat(Ints(xs, w)), w * i, LE(xs[i], w));
    ReadsScalar(b, off + w * i, xs[i], w);
  }
}
