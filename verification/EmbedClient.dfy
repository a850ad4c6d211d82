/** The HTTP embedding client's check of a reply (src/models/embedder.rs, `validate`).

    Rows carry the index the server claims for them. They are sorted by it and
    accepted only when the indices are exactly 0, 1, ..., so a reply that was
    reordered in flight is put right and a reply that lost or repeated a row is
    refused. */
module EmbedClient {
  import opened Device

  datatype Row = Row(index: nat, embedding: Vector)

  datatype EncodeError = Cancelled | Request | Timeout | Decode

  datatype Reply = Vectors(rows: seq<Vector>) | Refusal(error: EncodeError)

  function InsertRow(sorted: seq<Row>, row: Row): (r: seq<Row>)
    ensures multiset(r) == multiset(sorted) + multiset{row}
  {
    if sorted == [] then [row]
    else if sorted[0].index <= row.index then
      assert sorted == [sorted[0]] + sorted[1..];
      [sorted[0]] + InsertRow(sorted[1..], row)
    else [row] + sorted
  }

  /** `sort_by_key(|row| row.index)`: stable, ascending. */
  function SortRows(data: seq<Row>): (r: seq<Row>)
    ensures multiset(r) == multiset(data)
  {
    if data == [] then []
    else
      assert data == data[..|data| - 1] + [data[|data| - 1]];
      InsertRow(SortRows(data[..|data| - 1]), data[|data| - 1])
  }

  predicate RowInPlace(row: Row, i: nat, dim: nat) {
    row.index == i && |row.embedding.values| == dim
  }

  /** `OpenAiEmbedClient::validate`. */
  function Validate(data: seq<Row>, expected: nat, dim: nat): (r: Reply)
    ensures r.Refusal? ==> r == Refusal(Decode)
  {
    if |data| != expected then Refusal(Decode)
    else
      var sorted := SortRows(data);
      if forall i :: 0 <= i < |sorted| ==> RowInPlace(sorted[i], i, dim)
      then Vectors(seq(|sorted|, i requires 0 <= i < |sorted| => sorted[i].embedding))
      else Refusal(Decode)
  }

  ghost predicate Ascending(rows: seq<Row>) {
    forall i, j :: 0 <= i < j < |rows| ==> rows[i].index <= rows[j].index
  }

  lemma {:induction false} InsertKeepsAscending(sorted: seq<Row>, row: Row)
    requires Ascending(sorted)
    ensures Ascending(InsertRow(sorted, row))
  {
    if sorted != [] && sorted[0].index <= row.index {
      var tail := InsertRow(sorted[1..], row);
      InsertKeepsAscending(sorted[1..], row);
      forall j | 0 <= j < |tail| ensures sorted[0].index <= tail[j].index {
        assert tail[j] in multiset(tail);
        assert tail[j] == row || tail[j] in sorted[1..];
      }
    }
  }

  lemma {:induction false} SortIsAscending(data: seq<Row>)
    ensures Ascending(SortRows(data))
  {
    if data != [] {
      SortIsAscending(data[..|data| - 1]);
      InsertKeepsAscending(SortRows(data[..|data| - 1]), data[|data| - 1]);
    }
  }

  /** No two rows claim one index. */
  ghost predicate DistinctIndices(rows: seq<Row>) {
    forall i, j :: 0 <= i < j < |rows| ==> rows[i].index != rows[j].index
  }

  /** The reply carries exactly the indices 0 .. expected-1, once each, and every
      row has the promised width. */
  ghost predicate WellFormed(data: seq<Row>, expected: nat, dim: nat) {
    |data| == expected && DistinctIndices(data) &&
    forall k :: 0 <= k < |data| ==> data[k].index < expected && |data[k].embedding.values| == dim
  }

  /** An accepted reply has, at position i, the row that claimed index i. */
  lemma AcceptedRowsGoWhereTheyClaim(data: seq<Row>, expected: nat, dim: nat)
    requires Validate(data, expected, dim).Vectors?
    ensures |Validate(data, expected, dim).rows| == expected
    ensures forall k :: 0 <= k < |data| ==>
      data[k].index < expected && Validate(data, expected, dim).rows[data[k].index] == data[k].embedding
  {
    var sorted := SortRows(data);
    SameLength(sorted, data);
    forall k | 0 <= k < |data|
      ensures data[k].index < expected && Validate(data, expected, dim).rows[data[k].index] == data[k].embedding
    {
      assert data[k] in multiset(sorted);
      var i :| 0 <= i < |sorted| && sorted[i] == data[k];
      assert RowInPlace(sorted[i], i, dim);
    }
  }

  lemma SameLength(a: seq<Row>, b: seq<Row>)
    requires multiset(a) == multiset(b)
    ensures |a| == |b|
  {
    assert |multiset(a)| == |a| && |multiset(b)| == |b|;
  }

  lemma {:induction false} DistinctIsMultiplicity(rows: seq<Row>, other: seq<Row>)
    requires multiset(rows) == multiset(other) && DistinctIndices(rows)
    ensures DistinctIndices(other)
  {
    forall i, j | 0 <= i < j < |other| ensures other[i].index != other[j].index {
      assert other[i] in multiset(rows) && other[j] in multiset(rows);
      var p :| 0 <= p < |rows| && rows[p] == other[i];
      var q :| 0 <= q < |rows| && rows[q] == other[j];
      if p == q {
        TwoCopies(other, i, j);
        OneCopy(rows, p);
      } else if p < q {
        assert rows[p].index != rows[q].index;
      } else {
        assert rows[q].index != rows[p].index;
      }
    }
  }

  lemma TwoCopies(rows: seq<Row>, i: nat, j: nat)
    requires i < j < |rows| && rows[i] == rows[j]
    ensures multiset(rows)[rows[i]] >= 2
  {
    assert rows == rows[..i + 1] + rows[i + 1..];
    assert rows[i] in rows[..i + 1] && rows[i] == rows[i + 1..][j - i - 1] && rows[i] in rows[i + 1..];
  }

  lemma OneCopy(rows: seq<Row>, p: nat)
    requires p < |rows| && DistinctIndices(rows)
    ensures multiset(rows)[rows[p]] == 1
  {
    assert rows == rows[..p] + [rows[p]] + rows[p + 1..];
    assert rows[p] !in rows[..p] && rows[p] !in rows[p + 1..];
  }

  lemma {:induction false} AscendingFillsTheRange(rows: seq<Row>, i: nat)
    requires Ascending(rows) && DistinctIndices(rows) && i < |rows|
    requires forall k :: 0 <= k < |rows| ==> rows[k].index < |rows|
    ensures rows[i].index == i
  {
    AtLeast(rows, i);
    AtMost(rows, i);
  }

  lemma {:induction false} AtLeast(rows: seq<Row>, i: nat)
    requires Ascending(rows) && DistinctIndices(rows) && i < |rows|
    ensures rows[i].index >= i
  {
    if i > 0 {
      AtLeast(rows, i - 1);
    }
  }

  lemma {:induction false} AtMost(rows: seq<Row>, i: nat)
    requires Ascending(rows) && DistinctIndices(rows) && i < |rows|
    requires forall k :: 0 <= k < |rows| ==> rows[k].index < |rows|
    ensures rows[i].index <= i
    decreases |rows| - i
  {
    if i + 1 < |rows| {
      AtMost(rows, i + 1);
    }
  }

  /** A reply is accepted exactly when it is well formed. */
  lemma AcceptsExactlyWellFormed(data: seq<Row>, expected: nat, dim: nat)
    ensures Validate(data, expected, dim).Vectors? <==> WellFormed(data, expected, dim)
  {
    var sorted := SortRows(data);
    SameLength(sorted, data);
    if Validate(data, expected, dim).Vectors? {
      assert forall i :: 0 <= i < |sorted| ==> RowInPlace(sorted[i], i, dim);
      DistinctIsMultiplicity(sorted, data);
      forall k | 0 <= k < |data| ensures data[k].index < expected && |data[k].embedding.values| == dim {
        assert data[k] in multiset(sorted);
        var i :| 0 <= i < |sorted| && sorted[i] == data[k];
        assert RowInPlace(sorted[i], i, dim);
      }
    }
    if WellFormed(data, expected, dim) {
      SortIsAscending(data);
      DistinctIsMultiplicity(data, sorted);
      forall k | 0 <= k < |sorted| ensures sorted[k].index < expected && |sorted[k].embedding.values| == dim {
        assert sorted[k] in multiset(data);
      }
      forall i | 0 <= i < |sorted| ensures RowInPlace(sorted[i], i, dim) {
        AscendingFillsTheRange(sorted, i);
      }
    }
  }

  /** The server's own body: row i carries index i. */
  function Body(rows: seq<Vector>): (r: seq<Row>)
    ensures |r| == |rows| && forall i :: 0 <= i < |r| ==> r[i] == Row(i, rows[i])
  {
    seq(|rows|, i requires 0 <= i < |rows| => Row(i, rows[i]))
  }

  /** What arrives may list the body's rows in any order; the client undoes it. */
  lemma ReorderingIsUndone(rows: seq<Vector>, arrived: seq<Row>, dim: nat)
    requires multiset(arrived) == multiset(Body(rows))
    requires forall i :: 0 <= i < |rows| ==> |rows[i].values| == dim
    ensures Validate(arrived, |rows|, dim) == Vectors(rows)
  {
    var body := Body(rows);
    SameLength(arrived, body);
    DistinctIsMultiplicity(body, arrived);
    forall k | 0 <= k < |arrived| ensures arrived[k].index < |rows| && arrived[k] == body[arrived[k].index] {
      assert arrived[k] in multiset(body);
    }
    AcceptsExactlyWellFormed(arrived, |rows|, dim);
    AcceptedRowsGoWhereTheyClaim(arrived, |rows|, dim);
    forall i | 0 <= i < |rows| ensures Validate(arrived, |rows|, dim).rows[i] == rows[i] {
      assert body[i] in multiset(arrived);
      var k :| 0 <= k < |arrived| && arrived[k] == body[i];
    }
  }
}
