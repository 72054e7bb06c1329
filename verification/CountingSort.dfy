/** Transposing rows into compressed columns by counting sort. */
module CountingSort {
  import opened SparseDot
  import opened SparseVectors
  import opened TermScan

  function Sum(s: seq<nat>): nat {
    if s == [] then 0 else Sum(s[..|s| - 1]) + s[|s| - 1]
  }

  lemma {:induction false} SumBump(s: seq<nat>, i: nat)
    requires i < |s|
    ensures Sum(s[i := s[i] + 1]) == Sum(s) + 1
  {
    var init := s[..|s| - 1];
    if i < |s| - 1 {
      SumBump(init, i);
      assert s[i := s[i] + 1][..|s| - 1] == init[i := init[i] + 1];
    } else {
      assert s[i := s[i] + 1][..|s| - 1] == init;
    }
  }

  lemma {:induction false} SumZeros(n: nat)
    ensures Sum(seq(n, _ => 0)) == 0
  {
    if n > 0 {
      SumZeros(n - 1);
      assert seq(n, _ => 0)[..n - 1] == seq(n - 1, _ => 0);
    }
  }

  /** The number of entries in the rows. */
  function Total(rows: seq<Row>): nat {
    if rows == [] then 0 else Total(rows[..|rows| - 1]) + |rows[|rows| - 1]|
  }

  /** The column an entry's term is dealt to. */
  ghost predicate ColumnsOf(rows: seq<Row>, column: nat -> nat, columns: seq<nat>) {
    && ValidColumns(columns)
    && forall i, j :: 0 <= i < |rows| && 0 <= j < |rows[i]| ==>
         column(rows[i][j].term) < |columns| && columns[column(rows[i][j].term)] == rows[i][j].term
  }

  ghost predicate IsPointer(ptr: seq<nat>, n: nat, total: nat) {
    && |ptr| == n + 1 && ptr[0] == 0 && ptr[n] == total
    && forall a, b :: 0 <= a <= b <= n ==> ptr[a] <= ptr[b]
  }

  /** The list occupies the slots from lo on. */
  ghost predicate HeldAt(csc: seq<Posting>, lo: nat, list: seq<Posting>) {
    lo + |list| <= |csc| && csc[lo..lo + |list|] == list
  }

  /** The compressed columns hold, column by column, the postings of each column's term in row order. */
  ghost predicate IsTranspose(ptr: seq<nat>, csc: seq<Posting>, columns: seq<nat>, rows: seq<Row>) {
    && IsPointer(ptr, |columns|, |csc|)
    && (forall c :: 0 <= c < |columns| ==> ptr[c + 1] == ptr[c] + |PostingsOf(rows, columns[c])|)
    && (forall c :: 0 <= c < |columns| ==> HeldAt(csc, ptr[c], PostingsOf(rows, columns[c])))
  }

  /** Entries per column. */
  method CountColumns(rows: seq<Row>, nCols: nat, column: nat -> nat, ghost columns: seq<nat>) returns (counts: seq<nat>)
    requires |columns| == nCols && ColumnsOf(rows, column, columns)
    ensures |counts| == nCols && Sum(counts) == Total(rows)
    ensures forall c :: 0 <= c < nCols ==> counts[c] == |PostingsOf(rows, columns[c])|
  {
    counts := seq(nCols, _ => 0);
    ghost var staged: seq<seq<Posting>> := seq(nCols, _ => []);
    SumZeros(nCols);
    ScanStart(staged, columns, rows);
    hide StagedRows, StagedEntries;
    for i := 0 to |rows|
      invariant Counts(counts, staged) && |counts| == nCols && StagedRows(staged, columns, rows, i)
      invariant Sum(counts) == Total(rows[..i])
    {
      RowStart(staged, columns, rows, i);
      for j := 0 to |rows[i]|
        invariant Counts(counts, staged) && |counts| == nCols && StagedEntries(staged, columns, rows, i, j)
        invariant Sum(counts) == Total(rows[..i]) + j
      {
        var col := column(rows[i][j].term);
        RowEntry(staged, columns, rows, i, j, col);
        SumBump(counts, col);
        staged := staged[col := staged[col] + [Posting(i, rows[i][j].value)]];
        counts := counts[col := counts[col] + 1];
      }
      RowEnd(staged, columns, rows, i);
      assert rows[..i + 1][..i] == rows[..i];
    }
    assert rows[..|rows|] == rows;
    ScanDone(staged, columns, rows);
  }

  /** Running totals of the counts. */
  method PrefixSums(counts: seq<nat>) returns (ptr: seq<nat>)
    ensures IsPointer(ptr, |counts|, Sum(counts))
    ensures forall c :: 0 <= c < |counts| ==> ptr[c + 1] == ptr[c] + counts[c]
  {
    ptr := [0];
    for t := 0 to |counts|
      invariant |ptr| == t + 1 && ptr[0] == 0 && ptr[t] == Sum(counts[..t])
      invariant forall c :: 0 <= c < t ==> ptr[c + 1] == ptr[c] + counts[c]
      invariant forall a, b :: 0 <= a <= b <= t ==> ptr[a] <= ptr[b]
    {
      assert counts[..t + 1][..t] == counts[..t];
      ptr := ptr + [ptr[t] + counts[t]];
    }
    assert counts[..|counts|] == counts;
  }

  /** Each column's slots up to its cursor hold what has been dealt to it. */
  ghost predicate Filled(csc: seq<Posting>, ptr: seq<nat>, cursor: seq<nat>, staged: seq<seq<Posting>>) {
    && IsPointer(ptr, |staged|, |csc|) && |cursor| == |staged|
    && (forall c :: 0 <= c < |staged| ==> cursor[c] == ptr[c] + |staged[c]| <= ptr[c + 1])
    && (forall c :: 0 <= c < |staged| ==> HeldAt(csc, ptr[c], staged[c]))
  }

  lemma HeldElsewhere(csc: seq<Posting>, lo: nat, list: seq<Posting>, pos: nat, x: Posting)
    requires HeldAt(csc, lo, list) && pos < |csc| && (pos < lo || lo + |list| <= pos)
    ensures HeldAt(csc[pos := x], lo, list)
  {
  }

  lemma HeldExtended(csc: seq<Posting>, lo: nat, list: seq<Posting>, x: Posting)
    requires HeldAt(csc, lo, list) && lo + |list| < |csc|
    ensures HeldAt(csc[lo + |list| := x], lo, list + [x])
  {
    var pos := lo + |list|;
    assert csc[pos := x][lo..pos + 1] == csc[lo..pos] + [x];
  }

  lemma FillSlot(csc: seq<Posting>, ptr: seq<nat>, cursor: seq<nat>, staged: seq<seq<Posting>>, col: nat, x: Posting)
    requires Filled(csc, ptr, cursor, staged) && col < |staged| && cursor[col] < ptr[col + 1]
    ensures cursor[col] < |csc|
    ensures Filled(csc[cursor[col] := x], ptr, cursor[col := cursor[col] + 1], staged[col := staged[col] + [x]])
  {
    assert ptr[col + 1] <= ptr[|staged|];
    var pos, next := cursor[col], staged[col := staged[col] + [x]];
    forall c | 0 <= c < |staged|
      ensures HeldAt(csc[pos := x], ptr[c], next[c])
    {
      if c == col {
        HeldExtended(csc, ptr[c], staged[c], x);
      } else {
        assert c < col ==> ptr[c + 1] <= ptr[col];
        assert c > col ==> ptr[col + 1] <= ptr[c];
        HeldElsewhere(csc, ptr[c], staged[c], pos, x);
      }
    }
  }

  lemma FullColumns(csc: seq<Posting>, ptr: seq<nat>, cursor: seq<nat>, staged: seq<seq<Posting>>,
                    columns: seq<nat>, rows: seq<Row>)
    requires Filled(csc, ptr, cursor, staged) && |staged| == |columns|
    requires forall c :: 0 <= c < |columns| ==> staged[c] == PostingsOf(rows, columns[c]) && ptr[c + 1] == ptr[c] + |staged[c]|
    ensures IsTranspose(ptr, csc, columns, rows)
  {
  }

  /** The next entry's column still has a free slot. */
  lemma RoomLeft(rows: seq<Row>, columns: seq<nat>, staged: seq<seq<Posting>>, i: nat, j: nat, col: nat)
    requires i < |rows| && j < |rows[i]| && StagedEntries(staged, columns, rows, i, j)
    requires col < |columns| && columns[col] == rows[i][j].term
    ensures |staged[col]| < |PostingsOf(rows, columns[col])|
  {
    ScanEntry(rows, i, j, columns[col]);
    ScannedFits(rows, i, j + 1, columns[col]);
  }

  /** Deals every entry into its column's next free slot. */
  method FillColumns(rows: seq<Row>, nCols: nat, column: nat -> nat, ghost columns: seq<nat>,
                     ptr: seq<nat>, nnz: nat, ghost counts: seq<nat>) returns (csc: seq<Posting>)
    requires |columns| == nCols == |counts| && ColumnsOf(rows, column, columns)
    requires IsPointer(ptr, nCols, nnz)
    requires forall c :: 0 <= c < nCols ==> ptr[c + 1] == ptr[c] + counts[c] && counts[c] == |PostingsOf(rows, columns[c])|
    ensures |csc| == nnz && IsTranspose(ptr, csc, columns, rows)
  {
    csc := seq(nnz, _ => Posting(0, 0.0));
    var cursor := ptr[..nCols];
    ghost var staged: seq<seq<Posting>> := seq(nCols, _ => []);
    ScanStart(staged, columns, rows);
    hide StagedRows, StagedEntries, PostingsOf;
    for i := 0 to |rows|
      invariant |staged| == nCols && |csc| == nnz && Filled(csc, ptr, cursor, staged)
      invariant StagedRows(staged, columns, rows, i)
    {
      RowStart(staged, columns, rows, i);
      for j := 0 to |rows[i]|
        invariant |staged| == nCols && |csc| == nnz && Filled(csc, ptr, cursor, staged)
        invariant StagedEntries(staged, columns, rows, i, j)
      {
        var col := column(rows[i][j].term);
        RowEntry(staged, columns, rows, i, j, col);
        RoomLeft(rows, columns, staged, i, j, col);
        var x := Posting(i, rows[i][j].value);
        FillSlot(csc, ptr, cursor, staged, col, x);
        csc := csc[cursor[col] := x];
        cursor := cursor[col := cursor[col] + 1];
        staged := staged[col := staged[col] + [x]];
      }
      RowEnd(staged, columns, rows, i);
    }
    ScanDone(staged, columns, rows);
    FullColumns(csc, ptr, cursor, staged, columns, rows);
  }

  /** Count, prefix-sum, fill. */
  method Transpose(rows: seq<Row>, nCols: nat, column: nat -> nat, ghost columns: seq<nat>)
    returns (ptr: seq<nat>, csc: seq<Posting>)
    requires |columns| == nCols && ColumnsOf(rows, column, columns)
    ensures IsTranspose(ptr, csc, columns, rows) && |csc| == Total(rows)
  {
    var counts := CountColumns(rows, nCols, column, columns);
    ptr := PrefixSums(counts);
    csc := FillColumns(rows, nCols, column, columns, ptr, ptr[nCols], counts);
  }

  // ---------------------------------------------------------------- reading a column

  /** Adds w times each posting of a column into its row's accumulator. */
  method AddPostings(list: seq<Posting>, w: real, out: array<real>)
    requires forall p :: 0 <= p < |list| ==> list[p].doc < out.Length
    modifies out
    ensures forall r :: 0 <= r < out.Length ==> out[r] == old(out[r]) + ListScore(list, |list|, w, r)
  {
    for p := 0 to |list|
      invariant forall r :: 0 <= r < out.Length ==> out[r] == old(out[r]) + ListScore(list, p, w, r)
    {
      out[list[p].doc] := out[list[p].doc] + w * list[p].value;
    }
  }

  /** Adds w times column `col` into the per-row accumulators. */
  method AddColumn(ptr: seq<nat>, csc: seq<Posting>, col: nat, w: real, out: array<real>,
                   ghost columns: seq<nat>, ghost rows: seq<Row>)
    requires IsTranspose(ptr, csc, columns, rows) && col < |columns|
    requires out.Length == |rows|
    modifies out
    ensures forall r :: 0 <= r < |rows| ==> out[r] == old(out[r]) + Weighted(w, rows[r], columns[col])
  {
    ghost var list := ColumnSlots(ptr, csc, col, columns, rows);
    hide PostingsOf, Weighted, IsTranspose;
    AddPostings(csc[ptr[col]..ptr[col + 1]], w, out);
    forall r | 0 <= r < |rows|
      ensures ListScore(list, |list|, w, r) == Weighted(w, rows[r], columns[col])
    {
      PostingsScore(rows, columns[col], w, r);
    }
  }

  /** A column's slots hold exactly its postings. */
  lemma ColumnSlots(ptr: seq<nat>, csc: seq<Posting>, col: nat, columns: seq<nat>, rows: seq<Row>) returns (list: seq<Posting>)
    requires IsTranspose(ptr, csc, columns, rows) && col < |columns|
    ensures col + 1 < |ptr| && ptr[col] <= ptr[col + 1] <= |csc|
    ensures list == PostingsOf(rows, columns[col]) == csc[ptr[col]..ptr[col + 1]]
    ensures forall p :: 0 <= p < |list| ==> list[p].doc < |rows|
  {
    hide PostingsOf;
    list := PostingsOf(rows, columns[col]);
    assert HeldAt(csc, ptr[col], list);
    PostingsInRange(rows, columns[col]);
  }
}
