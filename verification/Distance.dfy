/** The dense query buffer and the dot product every exact score goes through. */
module Distance {
  import opened SparseDot

  ghost predicate AllZero(dense: seq<real>) {
    forall t :: 0 <= t < |dense| ==> dense[t] == 0.0
  }

  /** The buffer holds the query's weight at every term. */
  ghost predicate Scattered(dense: seq<real>, query: Row) {
    forall t :: 0 <= t < |dense| ==> dense[t] == At(query, t)
  }

  /** The row without the entries of one term. */
  function Without(row: Row, t: nat): Row {
    if row == [] then []
    else Without(row[..|row| - 1], t) + (if row[|row| - 1].term == t then [] else [row[|row| - 1]])
  }

  /** What a dense buffer keeps of a query: the last weight of each term. */
  function LastWeights(query: Row): Row {
    if query == [] then []
    else Without(LastWeights(query[..|query| - 1]), query[|query| - 1].term) + [query[|query| - 1]]
  }

  lemma AtAppend(row: Row, e: Entry, u: nat)
    ensures At(row + [e], u) == At(row, u) + (if e.term == u then e.value else 0.0)
  {
    assert (row + [e])[..|row|] == row;
  }

  lemma {:induction false} WithoutAt(row: Row, t: nat, u: nat)
    ensures At(Without(row, t), u) == if u == t then 0.0 else At(row, u)
  {
    if row != [] {
      var init, e := row[..|row| - 1], row[|row| - 1];
      WithoutAt(init, t, u);
      if e.term != t {
        AtAppend(Without(init, t), e, u);
      } else {
        assert Without(row, t) == Without(init, t);
      }
    }
  }

  /** A query's last weight at a term is its entry's, if it ends on that term. */
  lemma LastWeightsAt(query: Row, e: Entry, u: nat)
    ensures At(LastWeights(query + [e]), u) == if u == e.term then e.value else At(LastWeights(query), u)
  {
    assert (query + [e])[..|query|] == query;
    WithoutAt(LastWeights(query), e.term, u);
    AtAppend(Without(LastWeights(query), e.term), e, u);
  }

  lemma {:induction false} WithoutAbsent(row: Row, t: nat)
    requires !Carries(row, t)
    ensures Without(row, t) == row
  {
    if row != [] {
      var init := row[..|row| - 1];
      assert forall i :: 0 <= i < |init| ==> init[i] == row[i];
      assert row[|row| - 1].term != t;
      WithoutAbsent(init, t);
    }
  }

  /** A query of distinct terms is kept whole. */
  lemma {:induction false} LastWeightsDistinct(query: Row)
    requires DistinctTerms(query)
    ensures LastWeights(query) == query
  {
    if query != [] {
      var init, e := query[..|query| - 1], query[|query| - 1];
      LastWeightsDistinct(init);
      assert !Carries(init, e.term);
      WithoutAbsent(init, e.term);
    }
  }

  // ---------------------------------------------------------------- what a repeated query term costs

  lemma {:induction false} WithoutNonNegative(row: Row, t: nat)
    requires NonNegative(row)
    ensures NonNegative(Without(row, t))
  {
    if row != [] {
      WithoutNonNegative(row[..|row| - 1], t);
    }
  }

  lemma {:induction false} LastWeightsNonNegative(query: Row)
    requires NonNegative(query)
    ensures NonNegative(LastWeights(query))
  {
    if query != [] {
      var init := query[..|query| - 1];
      LastWeightsNonNegative(init);
      WithoutNonNegative(LastWeights(init), query[|query| - 1].term);
    }
  }

  lemma {:induction false} LastWeightsBelow(query: Row, t: nat)
    requires NonNegative(query)
    ensures At(LastWeights(query), t) <= At(query, t)
  {
    if query != [] {
      var init, e := query[..|query| - 1], query[|query| - 1];
      assert query == init + [e];
      LastWeightsBelow(init, t);
      LastWeightsAt(init, e, t);
      AtAppend(init, e, t);
      AtNonNegative(init, t);
    }
  }

  /** Dropping the earlier weights of a term never raises a score. */
  lemma KeptScoresLess(row: Row, query: Row)
    requires NonNegative(row) && NonNegative(query)
    ensures Dot(row, LastWeights(query)) <= Dot(row, query)
  {
    forall t: nat
      ensures At(LastWeights(query), t) <= At(query, t)
    {
      LastWeightsBelow(query, t);
    }
    DotMonotone(LastWeights(query), query, row);
    DotSymmetric(row, LastWeights(query));
    DotSymmetric(row, query);
  }

  /** A positive weight that is overwritten is missed. */
  lemma {:induction false} RepeatLoses(query: Row, i: nat, j: nat)
    requires Positive(query) && i < j < |query| && query[i].term == query[j].term
    ensures At(LastWeights(query), query[j].term) < At(query, query[j].term)
  {
    var init, e, t := query[..|query| - 1], query[|query| - 1], query[j].term;
    assert query == init + [e] && init[i] == query[i];
    LastWeightsAt(init, e, t);
    AtAppend(init, e, t);
    if e.term == t {
      AtPositive(init, t);
    } else {
      RepeatLoses(init, i, j);
    }
  }

  lemma DotOfOne(e: Entry, query: Row)
    requires e.value == 1.0
    ensures Dot([e], query) == At(query, e.term)
  {
    DotSymmetric([e], query);
    assert [e][..0] == [];
    WeightedIsProduct(1.0, query, e.term);
  }

  /** A query of positive weights scores every document the same through the buffer exactly when no term repeats. */
  lemma KeptWholeIffDistinct(query: Row)
    requires Positive(query)
    ensures (forall row: Row :: Dot(row, LastWeights(query)) == Dot(row, query)) <==> DistinctTerms(query)
  {
    if DistinctTerms(query) {
      LastWeightsDistinct(query);
    } else {
      var i, j :| 0 <= i < j < |query| && query[i].term == query[j].term;
      var e := Entry(query[j].term, 1.0);
      RepeatLoses(query, i, j);
      DotOfOne(e, query);
      DotOfOne(e, LastWeights(query));
      assert Dot([e], LastWeights(query)) != Dot([e], query);
    }
  }

  // ---------------------------------------------------------------- scattering and clearing

  lemma ScatterStep(dense: seq<real>, query: Row, i: nat)
    requires i < |query| && query[i].term < |dense|
    requires Scattered(dense, LastWeights(query[..i]))
    ensures Scattered(dense[query[i].term := query[i].value], LastWeights(query[..i + 1]))
  {
    var next := dense[query[i].term := query[i].value];
    assert query[..i + 1] == query[..i] + [query[i]];
    forall t | 0 <= t < |next|
      ensures next[t] == At(LastWeights(query[..i + 1]), t)
    {
      LastWeightsAt(query[..i], query[i], t);
    }
  }

  /** Writes the query into an all-zero buffer, which keeps the last weight of a term that repeats. */
  method Scatter(dense: array<real>, query: Row)
    requires TermsBelow(query, dense.Length)
    requires AllZero(dense[..])
    modifies dense
    ensures Scattered(dense[..], LastWeights(query))
  {
    for i := 0 to |query|
      invariant Scattered(dense[..], LastWeights(query[..i]))
    {
      ghost var before := dense[..];
      ScatterStep(before, query, i);
      dense[query[i].term] := query[i].value;
      assert dense[..] == before[query[i].term := query[i].value];
    }
    assert query[..|query|] == query;
  }

  /** A term the query lacks has no last weight. */
  lemma {:induction false} LastWeightsAbsent(query: Row, t: nat)
    requires !Carries(query, t)
    ensures At(LastWeights(query), t) == 0.0
  {
    if query != [] {
      var init, e := query[..|query| - 1], query[|query| - 1];
      assert forall i :: 0 <= i < |init| ==> init[i] == query[i];
      assert e.term != t && query == init + [e];
      LastWeightsAbsent(init, t);
      LastWeightsAt(init, e, t);
    }
  }

  /** Zeroes only the dimensions the query touched. */
  method ClearScatter(dense: array<real>, query: Row)
    requires TermsBelow(query, dense.Length)
    requires Scattered(dense[..], LastWeights(query))
    modifies dense
    ensures AllZero(dense[..])
  {
    forall t | 0 <= t < dense.Length && !Carries(query, t)
      ensures dense[t] == 0.0
    {
      LastWeightsAbsent(query, t);
      assert dense[t] == dense[..][t];
    }
    for i := 0 to |query|
      invariant forall t :: 0 <= t < dense.Length && !Carries(query[i..], t) ==> dense[t] == 0.0
    {
      dense[query[i].term] := 0.0;
      forall t | 0 <= t < dense.Length && !Carries(query[i + 1..], t)
        ensures dense[t] == 0.0
      {
        if t != query[i].term {
          assert query[i..] == [query[i]] + query[i + 1..];
          assert !Carries(query[i..], t);
        }
      }
    }
  }

  /** What the loop over a row's entries has accumulated against the buffer. */
  function DenseSum(row: Row, dense: seq<real>): real
    requires TermsBelow(row, |dense|)
  {
    if row == [] then 0.0
    else
      var e := row[|row| - 1];
      DenseSum(row[..|row| - 1], dense) + e.value * dense[e.term]
  }

  lemma {:induction false} DenseSumIsDot(row: Row, dense: seq<real>, query: Row)
    requires TermsBelow(row, |dense|)
    requires Scattered(dense, query)
    ensures DenseSum(row, dense) == Dot(query, row)
  {
    hide Weighted;
    if row != [] {
      var e := row[|row| - 1];
      DenseSumIsDot(row[..|row| - 1], dense, query);
      WeightedIsProduct(e.value, query, e.term);
    }
  }

  /** dot_product_float_dense: the row's exact score against the scattered query. */
  method DotProductDense(row: Row, dense: array<real>, ghost query: Row) returns (result: real)
    requires TermsBelow(row, dense.Length)
    requires Scattered(dense[..], query)
    ensures result == Dot(row, query)
  {
    result := 0.0;
    for i := 0 to |row|
      invariant result == DenseSum(row[..i], dense[..])
    {
      assert row[..i + 1][..i] == row[..i];
      result := result + row[i].value * dense[row[i].term];
    }
    assert row[..|row|] == row;
    DenseSumIsDot(row, dense[..], query);
    DotSymmetric(row, query);
  }
}
