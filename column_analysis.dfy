/**
 * The per-column analyses several steps run before rewriting: the set of
 * distinct values under each key (categorical standardisation, the quality
 * report) and the numbers under each key in row order (outlier detection,
 * the quality report). Each analysis is a loop over the rows and, inside,
 * over a row's entries in whatever order the row's HashMap yields them.
 */
module ColumnAnalysis {
  import opened Values

  /** Every key that occurs in some row. */
  function Columns(data: Dataset): (r: set<string>)
    ensures forall k :: k in r <==> exists i :: 0 <= i < |data| && k in data[i]
  {
    set i, k | 0 <= i < |data| && k in data[i] :: k
  }

  /** The distinct values stored under `k`, null included. */
  function ColumnValues(data: Dataset, k: string): (r: set<Value>)
    ensures forall v :: v in r <==> exists i :: 0 <= i < |data| && k in data[i] && data[i][k] == v
  {
    set i | 0 <= i < |data| && k in data[i] :: data[i][k]
  }

  function UniqueValues(data: Dataset): map<string, set<Value>> {
    map k | k in Columns(data) :: ColumnValues(data, k)
  }

  /** The effect of the inner loop after it has visited the keys `done` of `row`. */
  function AddRowValues(m: map<string, set<Value>>, row: Row, done: set<string>): map<string, set<Value>> {
    map k | k in m.Keys + (set j | j in done && j in row) ::
      (if k in m then m[k] else {}) + (if k in done && k in row then {row[k]} else {})
  }

  lemma ColumnsSnoc(data: Dataset, row: Row)
    ensures Columns(data + [row]) == Columns(data) + row.Keys
  {
    var d := data + [row];
    forall k | k in row
      ensures k in Columns(d)
    {
      assert k in d[|data|];
    }
    forall k | k in Columns(data)
      ensures k in Columns(d)
    {
      var i :| 0 <= i < |data| && k in data[i];
      assert k in d[i];
    }
    forall k | k in Columns(d)
      ensures k in Columns(data) + row.Keys
    {
      var i :| 0 <= i < |d| && k in d[i];
      if i < |data| {
        assert k in data[i];
      }
    }
  }

  lemma ColumnValuesSnoc(data: Dataset, row: Row, k: string)
    ensures ColumnValues(data + [row], k) == ColumnValues(data, k) + (if k in row then {row[k]} else {})
  {
    var d := data + [row];
    forall v | v in ColumnValues(d, k)
      ensures v in ColumnValues(data, k) + (if k in row then {row[k]} else {})
    {
      var i :| 0 <= i < |d| && k in d[i] && d[i][k] == v;
      if i < |data| {
        assert data[i] == d[i];
      }
    }
    forall v | v in ColumnValues(data, k)
      ensures v in ColumnValues(d, k)
    {
      var i :| 0 <= i < |data| && k in data[i] && data[i][k] == v;
      assert d[i] == data[i];
    }
    if k in row {
      assert d[|data|] == row;
    }
  }

  /** The inner loop before its first key. */
  lemma AddRowValuesNone(m: map<string, set<Value>>, row: Row)
    ensures AddRowValues(m, row, {}) == m
  {
    var a := AddRowValues(m, row, {});
    forall j
      ensures j in a <==> j in m
      ensures j in a ==> a[j] == m[j]
    {
    }
  }

  /** One more key visited by the inner loop. */
  lemma AddRowValuesStep(m: map<string, set<Value>>, row: Row, done: set<string>, k: string)
    requires k in row && k !in done
    ensures var a := AddRowValues(m, row, done);
      a[k := (if k in a then a[k] else {}) + {row[k]}] == AddRowValues(m, row, done + {k})
  {
    var a := AddRowValues(m, row, done);
    var b := AddRowValues(m, row, done + {k});
    var c := a[k := (if k in a then a[k] else {}) + {row[k]}];
    forall j
      ensures j in c <==> j in b
      ensures j in c ==> c[j] == b[j]
    {
    }
  }

  /** Visiting every key of the next row extends the analysis by that row. */
  lemma AddRowValuesComplete(data: Dataset, row: Row)
    ensures AddRowValues(UniqueValues(data), row, row.Keys) == UniqueValues(data + [row])
  {
    var a := AddRowValues(UniqueValues(data), row, row.Keys);
    var b := UniqueValues(data + [row]);
    forall k
      ensures k in a <==> k in b
      ensures k in a ==> a[k] == b[k]
    {
      AddRowValuesAt(data, row, k);
    }
  }

  /** AddRowValuesComplete at one key. */
  lemma AddRowValuesAt(data: Dataset, row: Row, k: string)
    ensures var a := AddRowValues(UniqueValues(data), row, row.Keys);
      var b := UniqueValues(data + [row]);
      (k in a <==> k in b) && (k in a ==> a[k] == b[k])
  {
    var u := UniqueValues(data);
    var a := AddRowValues(u, row, row.Keys);
    ColumnsSnoc(data, row);
    assert k in a <==> k in u || k in row;
    if k in a {
      ColumnValuesSnoc(data, row, k);
      assert a[k] == (if k in u then u[k] else {}) + (if k in row then {row[k]} else {});
      if k !in Columns(data) {
        assert ColumnValues(data, k) == {};
      }
    }
  }

  /** The inner loop: every entry of one row added to its key's set. */
  method AddRowToUniqueValues(m0: map<string, set<Value>>, row: Row) returns (m: map<string, set<Value>>)
    ensures m == AddRowValues(m0, row, row.Keys)
  {
    m := m0;
    var todo := row.Keys;
    ghost var done: set<string> := {};
    AddRowValuesNone(m0, row);
    while todo != {}
      invariant todo <= row.Keys && done == row.Keys - todo
      invariant m == AddRowValues(m0, row, done)
      decreases |todo|
    {
      var k :| k in todo;
      AddRowValuesStep(m0, row, done, k);
      var seen := if k in m then m[k] else {};
      m := m[k := seen + {row[k]}];
      todo := todo - {k};
      done := done + {k};
    }
  }

  /**
   * The analyse loop of CategoricalStandardizationStep: for every entry of
   * every row, add the value to the key's set, creating the set on first
   * sight of the key.
   */
  method CollectUniqueValues(data: Dataset) returns (m: map<string, set<Value>>)
    ensures m == UniqueValues(data)
  {
    m := map[];
    assert UniqueValues(data[..0]) == map[];
    for i := 0 to |data|
      invariant m == UniqueValues(data[..i])
    {
      m := AddRowToUniqueValues(m, data[i]);
      AddRowValuesComplete(data[..i], data[i]);
      assert data[..i + 1] == data[..i] + [data[i]];
    }
    assert data[..|data|] == data;
  }

  /** The numbers under `k`, as doubles, in row order. */
  function NumericSample(data: Dataset, k: string): (r: seq<real>)
    ensures |r| <= |data|
  {
    if data == [] then []
    else
      var last := data[|data| - 1];
      NumericSample(data[..|data| - 1], k)
        + (if k in last && IsNumber(last[k]) then [AsReal(last[k])] else [])
  }

  /** A number is in the sample exactly when some row holds it under `k`. */
  lemma {:induction false} NumericSampleMembers(data: Dataset, k: string, x: real)
    ensures x in NumericSample(data, k) <==>
      exists i :: 0 <= i < |data| && k in data[i] && IsNumber(data[i][k]) && AsReal(data[i][k]) == x
  {
    if data != [] {
      var n := |data| - 1;
      var init, last := data[..n], data[n];
      NumericSampleMembers(init, k, x);
      assert NumericSample(data, k)
        == NumericSample(init, k) + (if k in last && IsNumber(last[k]) then [AsReal(last[k])] else []);
      if x in NumericSample(data, k) {
        if x in NumericSample(init, k) {
          var i :| 0 <= i < |init| && k in init[i] && IsNumber(init[i][k]) && AsReal(init[i][k]) == x;
          assert data[i] == init[i];
        } else {
          assert k in data[n] && IsNumber(data[n][k]) && AsReal(data[n][k]) == x;
        }
      } else {
        forall i | 0 <= i < |data| && k in data[i] && IsNumber(data[i][k])
          ensures AsReal(data[i][k]) != x
        {
          if i < n {
            assert data[i] == init[i];
          }
        }
      }
    }
  }

  /** The sample of a column with no number is empty. */
  lemma {:induction false} NumericSampleEmpty(data: Dataset, k: string)
    ensures NumericSample(data, k) == [] <==>
      forall i :: 0 <= i < |data| && k in data[i] ==> !IsNumber(data[i][k])
  {
    if data != [] {
      var init := data[..|data| - 1];
      NumericSampleEmpty(init, k);
      forall i | 0 <= i < |init|
        ensures init[i] == data[i]
      {
      }
    }
  }

  function NumericColumns(data: Dataset): map<string, seq<real>> {
    map k | k in Columns(data) && NumericSample(data, k) != [] :: NumericSample(data, k)
  }

  /** The effect of the inner loop after it has visited the keys `done` of `row`. */
  function AddRowNumbers(m: map<string, seq<real>>, row: Row, done: set<string>): map<string, seq<real>> {
    map k | k in m.Keys + (set j | j in done && j in row && IsNumber(row[j])) ::
      (if k in m then m[k] else [])
        + (if k in done && k in row && IsNumber(row[k]) then [AsReal(row[k])] else [])
  }

  lemma NumericSampleSnoc(data: Dataset, row: Row, k: string)
    ensures NumericSample(data + [row], k)
      == NumericSample(data, k) + (if k in row && IsNumber(row[k]) then [AsReal(row[k])] else [])
  {
    var d := data + [row];
    assert d[..|d| - 1] == data;
  }

  /** A column's sample before the row it first appears in is empty. */
  lemma NumericSampleOutside(data: Dataset, k: string)
    requires k !in NumericColumns(data)
    ensures NumericSample(data, k) == []
  {
    if k !in Columns(data) {
      NumericSampleEmpty(data, k);
    }
  }

  lemma AddRowNumbersKey(data: Dataset, row: Row, k: string)
    ensures var lhs := AddRowNumbers(NumericColumns(data), row, row.Keys);
      var rhs := NumericColumns(data + [row]);
      (k in lhs <==> k in rhs) && (k in lhs ==> lhs[k] == rhs[k])
  {
    var d := data + [row];
    NumericSampleSnoc(data, row, k);
    ColumnsSnoc(data, row);
    if k !in NumericColumns(data) {
      NumericSampleOutside(data, k);
    }
  }

  /** Visiting every key of the next row extends the analysis by that row. */
  lemma AddRowNumbersComplete(data: Dataset, row: Row)
    ensures AddRowNumbers(NumericColumns(data), row, row.Keys) == NumericColumns(data + [row])
  {
    var lhs := AddRowNumbers(NumericColumns(data), row, row.Keys);
    var rhs := NumericColumns(data + [row]);
    forall k
      ensures k in lhs <==> k in rhs
      ensures k in lhs ==> lhs[k] == rhs[k]
    {
      AddRowNumbersKey(data, row, k);
    }
  }

  /** The inner loop before its first key. */
  lemma AddRowNumbersNone(m: map<string, seq<real>>, row: Row)
    ensures AddRowNumbers(m, row, {}) == m
  {
    var a := AddRowNumbers(m, row, {});
    forall j
      ensures j in a <==> j in m
      ensures j in a ==> a[j] == m[j]
    {
    }
  }

  /** One more key visited by the inner loop. */
  lemma AddRowNumbersStep(m: map<string, seq<real>>, row: Row, done: set<string>, k: string)
    requires k in row && k !in done
    ensures var a := AddRowNumbers(m, row, done);
      (if IsNumber(row[k]) then a[k := (if k in a then a[k] else []) + [AsReal(row[k])]] else a)
        == AddRowNumbers(m, row, done + {k})
  {
    var a := AddRowNumbers(m, row, done);
    var b := AddRowNumbers(m, row, done + {k});
    var c := if IsNumber(row[k]) then a[k := (if k in a then a[k] else []) + [AsReal(row[k])]] else a;
    forall j
      ensures j in c <==> j in b
      ensures j in c ==> c[j] == b[j]
    {
    }
  }

  /** The inner loop: every Number entry of one row appended to its key's list. */
  method AddRowToNumericColumns(m0: map<string, seq<real>>, row: Row) returns (m: map<string, seq<real>>)
    ensures m == AddRowNumbers(m0, row, row.Keys)
  {
    m := m0;
    var todo := row.Keys;
    ghost var done: set<string> := {};
    AddRowNumbersNone(m0, row);
    while todo != {}
      invariant todo <= row.Keys && done == row.Keys - todo
      invariant m == AddRowNumbers(m0, row, done)
      decreases |todo|
    {
      var k :| k in todo;
      AddRowNumbersStep(m0, row, done, k);
      if IsNumber(row[k]) {
        var seen := if k in m then m[k] else [];
        m := m[k := seen + [AsReal(row[k])]];
      }
      todo := todo - {k};
      done := done + {k};
    }
  }

  /**
   * The loop that gathers the numbers of each column (OutlierDetectionStep,
   * and again in the quality report): every Number entry is appended, as a
   * double, to its key's list, created on first sight of the key.
   */
  method CollectNumericColumns(data: Dataset) returns (m: map<string, seq<real>>)
    ensures m == NumericColumns(data)
  {
    m := map[];
    assert NumericColumns(data[..0]) == map[];
    for i := 0 to |data|
      invariant m == NumericColumns(data[..i])
    {
      m := AddRowToNumericColumns(m, data[i]);
      AddRowNumbersComplete(data[..i], data[i]);
      assert data[..i + 1] == data[..i] + [data[i]];
    }
    assert data[..|data|] == data;
  }
}
