/** The compressed sparse row store, and the term-major reading of it. */
module SparseVectors {
  import opened SparseDot

  /**
   * Compressed sparse rows: row d is the slice of `entries` between two offsets. The parallel
   * index and value arrays are one sequence of entries here.
   */
  datatype Csr = Csr(indptr: seq<nat>, entries: seq<Entry>) {

    predicate Valid() {
      if indptr == [] then entries == []
      else
        && indptr[0] == 0
        && indptr[|indptr| - 1] == |entries|
        && forall i, j :: 0 <= i <= j < |indptr| ==> indptr[i] <= indptr[j]
    }

    function Count(): nat {
      if indptr == [] then 0 else |indptr| - 1
    }

    function Row(d: nat): Row
      requires Valid() && d < Count()
    {
      entries[indptr[d]..indptr[d + 1]]
    }

    function Rows(): (rows: seq<Row>)
      requires Valid()
      ensures |rows| == Count()
      ensures forall d :: 0 <= d < Count() ==> rows[d] == Row(d)
    {
      seq(Count(), d requires 0 <= d < Count() => Row(d))
    }
  }

  /** One posting: a document (or cluster) and the value it stores at the list's term. */
  datatype Posting = Posting(doc: nat, value: real)

  /** The postings a single row contributes to term t, in storage order. */
  function RowPostings(row: Row, owner: nat, t: nat): seq<Posting> {
    if row == [] then []
    else
      var e := row[|row| - 1];
      RowPostings(row[..|row| - 1], owner, t) + (if e.term == t then [Posting(owner, e.value)] else [])
  }

  /** All postings of term t over the rows, in row order: the transposed column of the matrix. */
  function PostingsOf(rows: seq<Row>, t: nat): seq<Posting> {
    if rows == [] then []
    else PostingsOf(rows[..|rows| - 1], t) + RowPostings(rows[|rows| - 1], |rows| - 1, t)
  }

  ghost predicate StrictlyAscending(list: seq<Posting>) {
    forall i, j :: 0 <= i < j < |list| ==> list[i].doc < list[j].doc
  }

  ghost predicate DistinctRows(rows: seq<Row>) {
    forall d :: 0 <= d < |rows| ==> DistinctTerms(rows[d])
  }

  ghost predicate Corpus(rows: seq<Row>, dim: nat) {
    forall d :: 0 <= d < |rows| ==> TermsBelow(rows[d], dim) && DistinctTerms(rows[d])
  }

  /** What w times the first n postings add up to at document d. */
  function ListScore(list: seq<Posting>, n: nat, w: real, d: nat): real
    requires n <= |list|
  {
    if n == 0 then 0.0
    else ListScore(list, n - 1, w, d) + (if list[n - 1].doc == d then w * list[n - 1].value else 0.0)
  }

  lemma {:induction false} ListScoreAppend(a: seq<Posting>, b: seq<Posting>, n: nat, w: real, d: nat)
    requires n <= |b|
    ensures ListScore(a + b, |a| + n, w, d) == ListScore(a, |a|, w, d) + ListScore(b, n, w, d)
  {
    if n == 0 {
      ListScorePrefix(a, b, |a|, w, d);
    } else {
      ListScoreAppend(a, b, n - 1, w, d);
    }
  }

  lemma {:induction false} ListScorePrefix(a: seq<Posting>, b: seq<Posting>, n: nat, w: real, d: nat)
    requires n <= |a|
    ensures ListScore(a + b, n, w, d) == ListScore(a, n, w, d)
  {
    if n > 0 {
      ListScorePrefix(a, b, n - 1, w, d);
    }
  }

  lemma {:induction false} ListScoreAbsent(list: seq<Posting>, n: nat, w: real, d: nat)
    requires n <= |list| && forall p :: 0 <= p < n ==> list[p].doc != d
    ensures ListScore(list, n, w, d) == 0.0
  {
    if n > 0 {
      ListScoreAbsent(list, n - 1, w, d);
    }
  }

  /** Postings past n that belong to other documents leave the score at d unchanged. */
  lemma {:induction false} ListScoreSettled(list: seq<Posting>, n: nat, m: nat, w: real, d: nat)
    requires n <= m <= |list| && forall p :: n <= p < m ==> list[p].doc != d
    ensures ListScore(list, m, w, d) == ListScore(list, n, w, d)
    decreases m
  {
    if n < m {
      ListScoreSettled(list, n, m - 1, w, d);
    }
  }

  lemma {:induction false} RowPostingsOwner(row: Row, owner: nat, t: nat)
    ensures forall p :: 0 <= p < |RowPostings(row, owner, t)| ==> RowPostings(row, owner, t)[p].doc == owner
    ensures forall p :: 0 <= p < |RowPostings(row, owner, t)| ==> Entry(t, RowPostings(row, owner, t)[p].value) in row
  {
    if row != [] {
      RowPostingsOwner(row[..|row| - 1], owner, t);
    }
  }

  lemma {:induction false} RowPostingsScore(row: Row, owner: nat, t: nat, w: real)
    ensures ListScore(RowPostings(row, owner, t), |RowPostings(row, owner, t)|, w, owner) == Weighted(w, row, t)
  {
    if row != [] {
      var init, e := row[..|row| - 1], row[|row| - 1];
      RowPostingsScore(init, owner, t, w);
      if e.term == t {
        ListScoreAppend(RowPostings(init, owner, t), [Posting(owner, e.value)], 1, w, owner);
        assert ListScore([Posting(owner, e.value)], 0, w, owner) == 0.0;
      } else {
        assert RowPostings(row, owner, t) == RowPostings(init, owner, t);
      }
    }
  }

  lemma {:induction false} PostingsInRange(rows: seq<Row>, t: nat)
    ensures forall p :: 0 <= p < |PostingsOf(rows, t)| ==> PostingsOf(rows, t)[p].doc < |rows|
  {
    if rows != [] {
      PostingsInRange(rows[..|rows| - 1], t);
      RowPostingsOwner(rows[|rows| - 1], |rows| - 1, t);
    }
  }

  /** A column of the matrix scores a document exactly as the document's own row does. */
  lemma {:induction false} PostingsScore(rows: seq<Row>, t: nat, w: real, d: nat)
    requires d < |rows|
    ensures ListScore(PostingsOf(rows, t), |PostingsOf(rows, t)|, w, d) == Weighted(w, rows[d], t)
  {
    var init, last := rows[..|rows| - 1], |rows| - 1;
    var a, b := PostingsOf(init, t), RowPostings(rows[last], last, t);
    ListScoreAppend(a, b, |b|, w, d);
    RowPostingsOwner(rows[last], last, t);
    if d == last {
      PostingsInRange(init, t);
      ListScoreAbsent(a, |a|, w, d);
      RowPostingsScore(rows[last], last, t, w);
    } else {
      PostingsScore(init, t, w, d);
      ListScoreAbsent(b, |b|, w, d);
    }
  }

  lemma {:induction false} RowPostingsAtMostOne(row: Row, owner: nat, t: nat)
    requires DistinctTerms(row)
    ensures |RowPostings(row, owner, t)| <= 1
    ensures !Carries(row, t) ==> RowPostings(row, owner, t) == []
  {
    if row != [] {
      var init := row[..|row| - 1];
      assert forall i :: 0 <= i < |init| ==> init[i] == row[i];
      RowPostingsAtMostOne(init, owner, t);
    }
  }

  /** Distinct terms in every row make every posting list strictly ascending. */
  lemma {:induction false} PostingsAscend(rows: seq<Row>, t: nat)
    requires DistinctRows(rows)
    ensures StrictlyAscending(PostingsOf(rows, t))
  {
    if rows != [] {
      var init, last := rows[..|rows| - 1], |rows| - 1;
      PostingsAscend(init, t);
      PostingsInRange(init, t);
      RowPostingsAtMostOne(rows[last], last, t);
      RowPostingsOwner(rows[last], last, t);
    }
  }

  lemma {:induction false} RowPostingsMember(row: Row, owner: nat, t: nat)
    ensures RowPostings(row, owner, t) != [] <==> Carries(row, t)
  {
    if row != [] {
      var init := row[..|row| - 1];
      RowPostingsMember(init, owner, t);
      if Carries(init, t) {
        var i :| 0 <= i < |init| && init[i].term == t;
        assert row[i].term == t;
      }
    }
  }

  ghost predicate Names(list: seq<Posting>, d: nat) {
    exists p :: 0 <= p < |list| && list[p].doc == d
  }

  lemma NamesAppend(a: seq<Posting>, b: seq<Posting>, d: nat)
    ensures Names(a + b, d) <==> Names(a, d) || Names(b, d)
  {
    if p :| 0 <= p < |a| && a[p].doc == d {
      assert (a + b)[p] == a[p];
    }
    if p :| 0 <= p < |b| && b[p].doc == d {
      assert (a + b)[|a| + p] == b[p];
    }
  }

  /** A document is in a term's column exactly when its row carries the term. */
  lemma {:induction false} PostingsMember(rows: seq<Row>, t: nat, d: nat)
    requires d < |rows|
    ensures Names(PostingsOf(rows, t), d) <==> Carries(rows[d], t)
  {
    var init, last := rows[..|rows| - 1], |rows| - 1;
    var a, b := PostingsOf(init, t), RowPostings(rows[last], last, t);
    NamesAppend(a, b, d);
    RowPostingsOwner(rows[last], last, t);
    RowPostingsMember(rows[last], last, t);
    if d == last {
      PostingsInRange(init, t);
      assert b != [] ==> b[0].doc == d;
    } else {
      PostingsMember(init, t, d);
    }
  }
}
