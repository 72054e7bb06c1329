/** Sparse rows and the one dot product that every fast path of the library must agree with. */
module SparseDot {

  /** One stored component of a sparse vector. */
  datatype Entry = Entry(term: nat, value: real)

  type Row = seq<Entry>

  /** The weight a row carries at a term; a term repeated in the row counts every time. */
  function At(row: Row, t: nat): real {
    if row == [] then 0.0
    else
      var e := row[|row| - 1];
      At(row[..|row| - 1], t) + (if e.term == t then e.value else 0.0)
  }

  /** What one query entry (t, w) collects from a row: w times each value the row stores at t. */
  function Weighted(w: real, row: Row, t: nat): real {
    if row == [] then 0.0
    else
      var e := row[|row| - 1];
      Weighted(w, row[..|row| - 1], t) + (if e.term == t then w * e.value else 0.0)
  }

  /** The inner product, summed over the entries of the query. */
  function Dot(row: Row, query: Row): real {
    if query == [] then 0.0
    else
      var e := query[|query| - 1];
      Dot(row, query[..|query| - 1]) + Weighted(e.value, row, e.term)
  }

  ghost predicate DistinctTerms(row: Row) {
    forall i, j :: 0 <= i < j < |row| ==> row[i].term != row[j].term
  }

  ghost predicate TermsBelow(row: Row, dim: nat) {
    forall i :: 0 <= i < |row| ==> row[i].term < dim
  }

  ghost predicate NonNegative(row: Row) {
    forall i :: 0 <= i < |row| ==> row[i].value >= 0.0
  }

  ghost predicate Positive(row: Row) {
    forall i :: 0 <= i < |row| ==> row[i].value > 0.0
  }

  ghost predicate Carries(row: Row, t: nat) {
    exists i :: 0 <= i < |row| && row[i].term == t
  }

  lemma {:induction false} AtAbsent(row: Row, t: nat)
    requires !Carries(row, t)
    ensures At(row, t) == 0.0
  {
    if row != [] {
      assert forall i :: 0 <= i < |row| - 1 ==> row[..|row| - 1][i] == row[i];
      AtAbsent(row[..|row| - 1], t);
    }
  }

  /** In a row of distinct terms the weight at a term is the value of its one entry. */
  lemma {:induction false} AtPresent(row: Row, i: nat)
    requires DistinctTerms(row) && i < |row|
    ensures At(row, row[i].term) == row[i].value
  {
    var init := row[..|row| - 1];
    assert forall k :: 0 <= k < |init| ==> init[k] == row[k];
    if i == |row| - 1 {
      AtAbsent(init, row[i].term);
    } else {
      AtPresent(init, i);
    }
  }

  lemma {:induction false} AtNonNegative(row: Row, t: nat)
    requires NonNegative(row)
    ensures At(row, t) >= 0.0
  {
    if row != [] {
      AtNonNegative(row[..|row| - 1], t);
    }
  }

  lemma {:induction false} AtPositive(row: Row, t: nat)
    requires Positive(row) && Carries(row, t)
    ensures At(row, t) > 0.0
  {
    var init := row[..|row| - 1];
    assert forall i :: 0 <= i < |init| ==> init[i] == row[i];
    if Carries(init, t) {
      AtPositive(init, t);
    } else {
      AtAbsent(init, t);
    }
  }

  lemma DistributeStep(w: real, a: real, x: real)
    ensures w * (a + x) == w * a + w * x
  {
  }

  lemma {:induction false} WeightedIsProduct(w: real, row: Row, t: nat)
    ensures Weighted(w, row, t) == w * At(row, t)
  {
    if row != [] {
      var init, e := row[..|row| - 1], row[|row| - 1];
      WeightedIsProduct(w, init, t);
      DistributeStep(w, At(init, t), if e.term == t then e.value else 0.0);
    }
  }

  lemma WeightedAbsent(w: real, row: Row, t: nat)
    requires !Carries(row, t)
    ensures Weighted(w, row, t) == 0.0
  {
    WeightedIsProduct(w, row, t);
    AtAbsent(row, t);
  }

  lemma {:induction false} DotOfEmptyRow(query: Row)
    ensures Dot([], query) == 0.0
  {
    if query != [] {
      DotOfEmptyRow(query[..|query| - 1]);
    }
  }

  lemma {:induction false} DotAppendLeft(row: Row, e: Entry, query: Row)
    ensures Dot(row + [e], query) == Dot(row, query) + Weighted(e.value, query, e.term)
  {
    if query != [] {
      var init, q := query[..|query| - 1], query[|query| - 1];
      DotAppendLeft(row, e, init);
      assert (row + [e])[..|row|] == row;
    }
  }

  /**
   * Summing over the query's entries (term at a time) and summing over the document's entries
   * (document at a time) give the same number.
   */
  lemma {:induction false} DotSymmetric(row: Row, query: Row)
    ensures Dot(row, query) == Dot(query, row)
  {
    if row == [] {
      DotOfEmptyRow(query);
    } else {
      var init, e := row[..|row| - 1], row[|row| - 1];
      assert row == init + [e];
      DotAppendLeft(init, e, query);
      DotSymmetric(init, query);
    }
  }

  lemma ScaleMonotone(w: real, a: real, b: real)
    requires w >= 0.0 && a <= b
    ensures w * a <= w * b
  {
  }

  lemma WeightedMonotone(w: real, low: Row, high: Row, t: nat)
    requires w >= 0.0 && At(low, t) <= At(high, t)
    ensures Weighted(w, low, t) <= Weighted(w, high, t)
  {
    hide At, Weighted;
    WeightedIsProduct(w, low, t);
    WeightedIsProduct(w, high, t);
    ScaleMonotone(w, At(low, t), At(high, t));
  }

  lemma WeightedNonNegative(w: real, row: Row, t: nat)
    requires w >= 0.0 && NonNegative(row)
    ensures Weighted(w, row, t) >= 0.0
  {
    hide At, Weighted;
    AtNonNegative(row, t);
    WeightedIsProduct(w, row, t);
    ScaleMonotone(w, 0.0, At(row, t));
  }

  /** A row that is term-wise below another scores no more against a non-negative query. */
  lemma {:induction false} DotMonotone(low: Row, high: Row, query: Row)
    requires NonNegative(query)
    requires forall t: nat :: At(low, t) <= At(high, t)
    ensures Dot(low, query) <= Dot(high, query)
  {
    if query != [] {
      var q := query[|query| - 1];
      DotMonotone(low, high, query[..|query| - 1]);
      WeightedMonotone(q.value, low, high, q.term);
    }
  }

  lemma {:induction false} DotNonNegative(row: Row, query: Row)
    requires NonNegative(row) && NonNegative(query)
    ensures Dot(row, query) >= 0.0
  {
    if query != [] {
      var q := query[|query| - 1];
      DotNonNegative(row, query[..|query| - 1]);
      WeightedNonNegative(q.value, row, q.term);
    }
  }

  /** With positive weights on both sides the score is positive exactly when a term is shared. */
  lemma {:induction false} DotPositiveIffShared(row: Row, query: Row)
    requires Positive(row) && Positive(query)
    ensures Dot(row, query) > 0.0 <==> exists i :: 0 <= i < |query| && Carries(row, query[i].term)
  {
    if query != [] {
      var init, q := query[..|query| - 1], query[|query| - 1];
      DotPositiveIffShared(row, init);
      DotNonNegative(row, init);
      assert forall i :: 0 <= i < |init| ==> init[i] == query[i];
      WeightedIsProduct(q.value, row, q.term);
      if Carries(row, q.term) {
        AtPositive(row, q.term);
        assert Carries(row, query[|query| - 1].term);
      } else {
        AtAbsent(row, q.term);
        if i :| 0 <= i < |query| && Carries(row, query[i].term) {
          assert Carries(row, init[i].term);
        }
      }
    }
  }
}
