/** Document vectors appended into one CSR, row by row, and the rows read back from it. */
module RemainderRows {
  import opened Bytes
  import opened InlineFormat
  import opened InlineWriter
  import opened Serialization
  import opened StoredIndexes

  /** All rows' components, one row after the other. */
  function AllComponents(rows: seq<Vector>): Vector {
    if rows == [] then [] else AllComponents(rows[..|rows| - 1]) + rows[|rows| - 1]
  }

  function RowPointers(rows: seq<Vector>): (indptr: seq<nat>)
    ensures |indptr| == |rows| + 1
  {
    if rows == [] then [0]
    else RowPointers(rows[..|rows| - 1]) + [|AllComponents(rows)|]
  }

  /** The CSR the rows are appended into; nothing is stored of no rows. */
  function StoredRows(rows: seq<Vector>, dimension: nat, elementSize: nat): StoredVectors {
    if rows == [] then NoVectors
    else Vectors(dimension, elementSize, RowPointers(rows), Terms(AllComponents(rows)), Flat(Codes(AllComponents(rows))))
  }

  lemma AppendRow(rows: seq<Vector>, i: nat)
    requires i < |rows|
    ensures RowPointers(rows[..i + 1]) == RowPointers(rows[..i]) + [|AllComponents(rows[..i])| + |rows[i]|]
    ensures Terms(AllComponents(rows[..i + 1])) == Terms(AllComponents(rows[..i])) + Terms(rows[i])
    ensures Flat(Codes(AllComponents(rows[..i + 1]))) == Flat(Codes(AllComponents(rows[..i]))) + Flat(Codes(rows[i]))
  {
    hide Flat;
    assert rows[..i + 1][..i] == rows[..i];
    FlatConcat(Codes(AllComponents(rows[..i])), Codes(rows[i]));
    assert Codes(AllComponents(rows[..i + 1])) == Codes(AllComponents(rows[..i])) + Codes(rows[i]);
  }

  /** add_vectors, one row a call: arrays are appended, the row's end is rebased onto what is stored. */
  method AppendRows(rows: seq<Vector>, dimension: nat, elementSize: nat) returns (v: StoredVectors)
    ensures v == StoredRows(rows, dimension, elementSize)
  {
    hide Flat, AllComponents, RowPointers;
    NoComponents(rows[..0]);
    var indptr: seq<nat>, indices: seq<nat>, values: seq<byte> := [0], [], [];
    for i := 0 to |rows|
      invariant indptr == RowPointers(rows[..i]) && indptr[i] == |indices|
      invariant indices == Terms(AllComponents(rows[..i])) && values == Flat(Codes(AllComponents(rows[..i])))
    {
      AppendRow(rows, i);
      var offset := indptr[|indptr| - 1];
      indices := indices + Terms(rows[i]);
      values := values + Flat(Codes(rows[i]));
      indptr := indptr + [|rows[i]| + offset];
    }
    assert rows[..|rows|] == rows;
    v := if |rows| == 0 then NoVectors else Vectors(dimension, elementSize, indptr, indices, values);
  }

  lemma {:induction false} PointerAt(rows: seq<Vector>, i: nat)
    requires i <= |rows|
    ensures RowPointers(rows)[i] == |AllComponents(rows[..i])| <= |AllComponents(rows)|
    ensures AllComponents(rows)[..|AllComponents(rows[..i])|] == AllComponents(rows[..i])
    decreases |rows|
  {
    if i < |rows| {
      assert rows[..|rows| - 1][..i] == rows[..i];
      PointerAt(rows[..|rows| - 1], i);
    } else {
      assert rows[..i] == rows;
      if rows == [] {
        assert rows[..0] == [];
      }
    }
  }

  lemma PointersRise(rows: seq<Vector>, i: nat)
    requires i < |rows|
    ensures RowPointers(rows)[i + 1] == RowPointers(rows)[i] + |rows[i]| <= |AllComponents(rows)|
    ensures AllComponents(rows)[RowPointers(rows)[i]..RowPointers(rows)[i + 1]] == rows[i]
  {
    PointerAt(rows, i);
    PointerAt(rows, i + 1);
    assert rows[..i + 1][..i] == rows[..i];
    var p := AllComponents(rows[..i + 1]);
    assert p[|AllComponents(rows[..i])|..] == rows[i];
    assert AllComponents(rows)[..|p|][|AllComponents(rows[..i])|..] == rows[i];
  }

  /** The CSR's arrays can hold row i. */
  predicate HasRow(v: StoredVectors, i: nat) {
    && v.Vectors? && i + 1 < |v.indptr|
    && v.indptr[i] <= v.indptr[i + 1] <= |v.indices| && |v.values| == v.elementSize * |v.indices|
  }

  /** A component of the CSR: its term and the bytes of its value. */
  function StoredComponent(v: StoredVectors, c: nat): Component
    requires v.Vectors? && c < |v.indices| && |v.values| == v.elementSize * |v.indices|
  {
    WithinRows(v.elementSize, c, |v.indices|);
    Component(v.indices[c], AsBytes(v.values[v.elementSize * c..v.elementSize * c + v.elementSize]))
  }

  function AsBytes(xs: seq<nat>): (b: seq<byte>)
    ensures |b| == |xs|
  {
    seq(|xs|, i requires 0 <= i < |xs| => xs[i] % 256)
  }

  function StoredRow(v: StoredVectors, i: nat): Vector
    requires HasRow(v, i)
  {
    seq(v.indptr[i + 1] - v.indptr[i], c requires 0 <= c < v.indptr[i + 1] - v.indptr[i] => StoredComponent(v, v.indptr[i] + c))
  }

  /** The rows of a CSR as loaded; a row its arrays cannot hold is none. */
  function RowsOf(v: StoredVectors): (rows: seq<Vector>)
    ensures |rows| == if v.NoVectors? || v.indptr == [] then 0 else |v.indptr| - 1
  {
    if v.NoVectors? || v.indptr == [] then []
    else seq(|v.indptr| - 1, i requires 0 <= i < |v.indptr| - 1 => if HasRow(v, i) then StoredRow(v, i) else [])
  }

  lemma {:induction false} AllStored(rows: seq<Vector>, elementSize: nat)
    requires forall i :: 0 <= i < |rows| ==> Stored(rows[i], elementSize)
    ensures Stored(AllComponents(rows), elementSize)
  {
    if rows != [] {
      AllStored(rows[..|rows| - 1], elementSize);
    }
  }

  lemma ComponentBack(rows: seq<Vector>, dimension: nat, elementSize: nat, c: nat)
    requires rows != [] && Stored(AllComponents(rows), elementSize) && c < |AllComponents(rows)|
    ensures var v := StoredRows(rows, dimension, elementSize);
            |v.values| == v.elementSize * |v.indices| && c < |v.indices| && StoredComponent(v, c) == AllComponents(rows)[c]
  {
    hide AllComponents, Flat;
    var v, all := StoredRows(rows, dimension, elementSize), AllComponents(rows);
    FlatLength(Codes(all), elementSize);
    FlatAt(Codes(all), elementSize, c);
    WithinRows(elementSize, c, |all|);
    assert v.values[elementSize * c..elementSize * c + elementSize] == Codes(all)[c];
    assert AsBytes(Codes(all)[c]) == Codes(all)[c];
  }

  /** The rows come back from the CSR they were appended into. */
  lemma RowsBack(rows: seq<Vector>, dimension: nat, elementSize: nat)
    requires forall i :: 0 <= i < |rows| ==> Stored(rows[i], elementSize)
    ensures RowsOf(StoredRows(rows, dimension, elementSize)) == rows
  {
    hide AllComponents, RowPointers, StoredComponent;
    var v := StoredRows(rows, dimension, elementSize);
    AllStored(rows, elementSize);
    forall i | 0 <= i < |rows|
      ensures RowsOf(v)[i] == rows[i]
    {
      RowBack(rows, dimension, elementSize, i);
    }
  }

  lemma RowBack(rows: seq<Vector>, dimension: nat, elementSize: nat, i: nat)
    requires i < |rows| && Stored(AllComponents(rows), elementSize)
    ensures HasRow(StoredRows(rows, dimension, elementSize), i)
    ensures StoredRow(StoredRows(rows, dimension, elementSize), i) == rows[i]
  {
    hide AllComponents, RowPointers, StoredComponent, Flat, Stored;
    var v, all := StoredRows(rows, dimension, elementSize), AllComponents(rows);
    PointersRise(rows, i);
    CodesLength(all, elementSize);
    forall c | 0 <= c < |rows[i]|
      ensures StoredComponent(v, v.indptr[i] + c) == rows[i][c]
    {
      ComponentBack(rows, dimension, elementSize, v.indptr[i] + c);
      assert all[v.indptr[i]..v.indptr[i + 1]][c] == all[v.indptr[i] + c];
    }
  }

  lemma CodesLength(v: Vector, elementSize: nat)
    requires Stored(v, elementSize)
    ensures |Flat(Codes(v))| == elementSize * |v|
  {
    FlatLength(Codes(v), elementSize);
  }

  /** The stored remainder fits its fields, and the mapped reader takes it. */
  lemma RemainderStorable(rows: seq<Vector>, dimension: nat, elementSize: nat)
    requires forall i :: 0 <= i < |rows| ==> Stored(rows[i], elementSize)
    requires ValidWidth(elementSize) && 0 < dimension < SIZE_RANGE && |rows| < INT64_RANGE && 4 * |AllComponents(rows)| < INT64_RANGE
    ensures StorableVectors(StoredRows(rows, dimension, elementSize))
    ensures rows != [] ==> Mappable(dimension, elementSize, RowPointers(rows))
  {
    hide AllComponents, RowPointers, Flat;
    var v, all := StoredRows(rows, dimension, elementSize), AllComponents(rows);
    AllStored(rows, elementSize);
    CodesLength(all, elementSize);
    PowValues();
    PointersSound(rows);
    assert elementSize * |all| <= 4 * |all|;
  }

  /** The row pointers start at none, never fall, and end at all components. */
  lemma PointersSound(rows: seq<Vector>)
    requires |AllComponents(rows)| < INT64_RANGE
    ensures var indptr := RowPointers(rows);
            && indptr[0] == 0 && indptr[|rows|] == |AllComponents(rows)|
            && (forall i :: 0 <= i <= |rows| ==> indptr[i] <= |AllComponents(rows)|)
            && (forall i :: 1 <= i < |indptr| ==> Signed(indptr[i - 1]) <= Signed(indptr[i]))
  {
    hide AllComponents, RowPointers;
    var all := AllComponents(rows);
    PointerAt(rows, 0);
    NoComponents(rows[..0]);
    forall i | 0 <= i <= |rows|
      ensures RowPointers(rows)[i] <= |all|
    {
      PointerAt(rows, i);
    }
    forall i | 1 <= i <= |rows|
      ensures Signed(RowPointers(rows)[i - 1]) <= Signed(RowPointers(rows)[i])
    {
      PointersRise(rows, i - 1);
    }
    PointerAt(rows, |rows|);
    assert rows[..|rows|] == rows;
  }

  lemma NoComponents(none: seq<Vector>)
    requires none == []
    ensures AllComponents(none) == [] && RowPointers(none) == [0] && Flat(Codes(AllComponents(none))) == []
  {
  }
}
