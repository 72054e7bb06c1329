/** 64-bit bitmap words as bit sequences, lowest bit first, with the operations the search uses. */
module BitWords {

  const BITS: nat := 64

  type Word = w: seq<bool> | |w| == BITS witness seq(BITS, _ => false)

  const ZERO: Word := seq(BITS, _ => false)

  /** 1 shifted left by b. */
  function Mask(b: nat): Word
    requires b < BITS
  {
    seq(BITS, i => i == b)
  }

  function Or(a: Word, b: Word): Word {
    seq(BITS, i requires 0 <= i < BITS => a[i] || b[i])
  }

  function And(a: Word, b: Word): Word {
    seq(BITS, i requires 0 <= i < BITS => a[i] && b[i])
  }

  /** Subtraction of one: the borrow runs through the low zeros to the lowest set bit. */
  function Borrow(w: seq<bool>): (r: seq<bool>)
    ensures |r| == |w|
  {
    if w == [] then []
    else if w[0] then [false] + w[1..]
    else [true] + Borrow(w[1..])
  }

  function Decrement(w: Word): Word {
    Borrow(w)
  }

  lemma {:induction false} BorrowBits(w: seq<bool>, b: nat)
    requires b < |w| && w[b] && forall c :: 0 <= c < b ==> !w[c]
    ensures forall c :: 0 <= c < b ==> Borrow(w)[c]
    ensures !Borrow(w)[b]
    ensures forall c :: b < c < |w| ==> Borrow(w)[c] == w[c]
  {
    if b > 0 {
      BorrowBits(w[1..], b - 1);
    }
  }

  /** w & (w - 1) clears the lowest set bit and no other. */
  lemma ClearLowest(w: Word, b: nat)
    requires b < BITS && w[b] && forall c :: 0 <= c < b ==> !w[c]
    ensures And(w, Decrement(w)) == w[b := false]
  {
    BorrowBits(w, b);
  }

  /** The index of the lowest set bit (__builtin_ctzll). */
  method CountTrailingZeros(w: Word) returns (b: nat)
    requires w != ZERO
    ensures b < BITS && w[b] && forall c :: 0 <= c < b ==> !w[c]
  {
    b := 0;
    while !w[b]
      invariant b < BITS && forall c :: 0 <= c < b ==> !w[c]
      decreases BITS - b
    {
      assert b == BITS - 1 ==> w == ZERO;
      b := b + 1;
    }
  }
}
