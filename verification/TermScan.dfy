/**
 * Scanning the rows of a matrix in order and dealing each entry to its term's column: the one walk
 * behind posting lists, centroid and summary transposes, and windowed builds.
 */
module TermScan {
  import opened SparseDot
  import opened SparseVectors

  /** The postings of term t that lie before entry j of row i. */
  ghost function Scanned(rows: seq<Row>, i: nat, j: nat, t: nat): seq<Posting>
    requires i < |rows| && j <= |rows[i]|
  {
    PostingsOf(rows[..i], t) + RowPostings(rows[i][..j], i, t)
  }

  lemma ScanEntry(rows: seq<Row>, i: nat, j: nat, t: nat)
    requires i < |rows| && j < |rows[i]|
    ensures Scanned(rows, i, j + 1, t)
            == Scanned(rows, i, j, t) + (if rows[i][j].term == t then [Posting(i, rows[i][j].value)] else [])
  {
    assert rows[i][..j + 1][..j] == rows[i][..j];
  }

  /** Columns are terms, each named once. */
  ghost predicate ValidColumns(columns: seq<nat>) {
    forall c, d :: 0 <= c < d < |columns| ==> columns[c] != columns[d]
  }

  /** The staged columns hold what the scan has passed: whole rows, or rows and part of the next. */
  ghost predicate StagedRows(staged: seq<seq<Posting>>, columns: seq<nat>, rows: seq<Row>, i: nat)
    requires i <= |rows|
  {
    |staged| == |columns| && forall c :: 0 <= c < |staged| ==> staged[c] == PostingsOf(rows[..i], columns[c])
  }

  ghost predicate StagedEntries(staged: seq<seq<Posting>>, columns: seq<nat>, rows: seq<Row>, i: nat, j: nat)
    requires i < |rows| && j <= |rows[i]|
  {
    |staged| == |columns| && forall c :: 0 <= c < |staged| ==> staged[c] == Scanned(rows, i, j, columns[c])
  }

  lemma ScanStart(staged: seq<seq<Posting>>, columns: seq<nat>, rows: seq<Row>)
    requires |staged| == |columns| && forall c :: 0 <= c < |staged| ==> staged[c] == []
    ensures StagedRows(staged, columns, rows, 0)
  {
  }

  lemma RowStart(staged: seq<seq<Posting>>, columns: seq<nat>, rows: seq<Row>, i: nat)
    requires i < |rows| && StagedRows(staged, columns, rows, i)
    ensures StagedEntries(staged, columns, rows, i, 0)
  {
  }

  lemma RowEntry(staged: seq<seq<Posting>>, columns: seq<nat>, rows: seq<Row>, i: nat, j: nat, c: nat)
    requires i < |rows| && j < |rows[i]| && StagedEntries(staged, columns, rows, i, j)
    requires ValidColumns(columns) && c < |columns| && columns[c] == rows[i][j].term
    ensures StagedEntries(staged[c := staged[c] + [Posting(i, rows[i][j].value)]], columns, rows, i, j + 1)
  {
    forall b | 0 <= b < |staged|
      ensures Scanned(rows, i, j + 1, columns[b])
              == staged[b] + (if b == c then [Posting(i, rows[i][j].value)] else [])
    {
      ScanEntry(rows, i, j, columns[b]);
    }
  }

  /** An entry of a term outside the columns leaves them alone. */
  lemma RowSkip(staged: seq<seq<Posting>>, columns: seq<nat>, rows: seq<Row>, i: nat, j: nat)
    requires i < |rows| && j < |rows[i]| && StagedEntries(staged, columns, rows, i, j)
    requires rows[i][j].term !in columns
    ensures StagedEntries(staged, columns, rows, i, j + 1)
  {
    forall b | 0 <= b < |staged|
      ensures Scanned(rows, i, j + 1, columns[b]) == staged[b]
    {
      ScanEntry(rows, i, j, columns[b]);
    }
  }

  lemma RowEnd(staged: seq<seq<Posting>>, columns: seq<nat>, rows: seq<Row>, i: nat)
    requires i < |rows| && StagedEntries(staged, columns, rows, i, |rows[i]|)
    ensures StagedRows(staged, columns, rows, i + 1)
  {
    assert rows[..i + 1][..i] == rows[..i];
    assert rows[i][..|rows[i]|] == rows[i];
  }

  lemma ScanDone(staged: seq<seq<Posting>>, columns: seq<nat>, rows: seq<Row>)
    requires StagedRows(staged, columns, rows, |rows|)
    ensures |staged| == |columns|
    ensures forall c :: 0 <= c < |staged| ==> staged[c] == PostingsOf(rows, columns[c])
  {
    assert rows[..|rows|] == rows;
  }

  ghost predicate Counts(counts: seq<nat>, staged: seq<seq<Posting>>) {
    |counts| == |staged| && forall t :: 0 <= t < |counts| ==> counts[t] == |staged[t]|
  }

  // ---------------------------------------------------------------- bounds

  lemma {:induction false} RowPrefixFits(row: Row, j: nat, owner: nat, t: nat)
    requires j <= |row|
    ensures |RowPostings(row[..j], owner, t)| <= |RowPostings(row, owner, t)|
    decreases |row|
  {
    if j < |row| {
      assert row[..|row| - 1][..j] == row[..j];
      RowPrefixFits(row[..|row| - 1], j, owner, t);
    } else {
      assert row[..j] == row;
    }
  }

  lemma {:induction false} RowsPrefixFit(rows: seq<Row>, i: nat, t: nat)
    requires i <= |rows|
    ensures |PostingsOf(rows[..i], t)| <= |PostingsOf(rows, t)|
    decreases |rows|
  {
    if i < |rows| {
      assert rows[..|rows| - 1][..i] == rows[..i];
      RowsPrefixFit(rows[..|rows| - 1], i, t);
    } else {
      assert rows[..i] == rows;
    }
  }

  /** What has been scanned of a column never exceeds the whole column. */
  lemma ScannedFits(rows: seq<Row>, i: nat, j: nat, t: nat)
    requires i < |rows| && j <= |rows[i]|
    ensures |Scanned(rows, i, j, t)| <= |PostingsOf(rows, t)|
  {
    RowPrefixFits(rows[i], j, i, t);
    RowsPrefixFit(rows, i + 1, t);
    assert rows[..i + 1][..i] == rows[..i];
  }
}
