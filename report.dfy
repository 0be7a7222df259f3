/**
 * generateDataQualityReport: row totals, the missing entries per column of
 * the raw data, and, over the cleaned data, the distinct values per column,
 * summary statistics of the numeric columns and the class of each column's
 * first real value.
 */
module QualityReport {
  import opened Wrappers
  import opened Values
  import ColumnAnalysis

  /** An entry the report counts as missing: null, or exactly the string "N/A". */
  predicate IsMissingEntry(v: Value) {
    v == Null || v == Str(NotAvailable)
  }

  /** The number of rows whose entry under `k` is missing. */
  function MissingCount(data: Dataset, k: string): (r: nat)
    ensures r <= |data|
  {
    if data == [] then 0
    else
      var last := data[|data| - 1];
      MissingCount(data[..|data| - 1], k) + (if k in last && IsMissingEntry(last[k]) then 1 else 0)
  }

  /** missingValuesCount: the missing entries per column, for the columns that have any. */
  function MissingValuesCount(raw: Dataset): map<string, nat> {
    map k | k in ColumnAnalysis.Columns(raw) && MissingCount(raw, k) > 0 :: MissingCount(raw, k)
  }

  /** A column has a missing count of zero exactly when no row holds a missing entry under it. */
  lemma {:induction false} MissingCountZero(data: Dataset, k: string)
    ensures MissingCount(data, k) == 0 <==>
      forall i :: 0 <= i < |data| && k in data[i] ==> !IsMissingEntry(data[i][k])
  {
    if data != [] {
      var init := data[..|data| - 1];
      MissingCountZero(init, k);
      forall i | 0 <= i < |init|
        ensures init[i] == data[i]
      {
      }
    }
  }

  /**
   * A column is reported exactly when some raw row holds null or "N/A"
   * under it, and its count is between one and the number of rows.
   */
  lemma MissingValuesCountOutcome(raw: Dataset, k: string)
    ensures k in MissingValuesCount(raw) <==>
      exists i :: 0 <= i < |raw| && k in raw[i] && IsMissingEntry(raw[i][k])
    ensures k in MissingValuesCount(raw) ==> 1 <= MissingValuesCount(raw)[k] <= |raw|
  {
    MissingCountZero(raw, k);
  }

  /** uniqueValuesCount: the number of distinct cleaned values per column, null counted as a value. */
  function UniqueValuesCount(cleaned: Dataset): map<string, nat> {
    map k | k in ColumnAnalysis.Columns(cleaned) :: |ColumnAnalysis.ColumnValues(cleaned, k)|
  }

  /** A column holds no more distinct values than there are rows. */
  lemma {:induction false} ColumnValuesBound(data: Dataset, k: string)
    ensures |ColumnAnalysis.ColumnValues(data, k)| <= |data|
  {
    if data != [] {
      var init := data[..|data| - 1];
      var last := data[|data| - 1];
      assert data == init + [last];
      ColumnValuesBound(init, k);
      ColumnAnalysis.ColumnValuesSnoc(init, last, k);
    }
  }

  /**
   * Every column of the cleaned data is reported, with between one and
   * as many distinct values as there are rows.
   */
  lemma UniqueValuesCountOutcome(cleaned: Dataset, k: string)
    ensures k in UniqueValuesCount(cleaned) <==> exists i :: 0 <= i < |cleaned| && k in cleaned[i]
    ensures k in UniqueValuesCount(cleaned) ==> 1 <= UniqueValuesCount(cleaned)[k] <= |cleaned|
  {
    if k in UniqueValuesCount(cleaned) {
      ColumnValuesBound(cleaned, k);
      var i :| 0 <= i < |cleaned| && k in cleaned[i];
      assert cleaned[i][k] in ColumnAnalysis.ColumnValues(cleaned, k);
    }
  }

  /** The statistics of one numeric column, the four entries of its Map.of. */
  datatype NumericStats = NumericStats(mean: real, sum: real, min: real, max: real)

  function Sum(xs: seq<real>): real {
    if xs == [] then 0.0 else Sum(xs[..|xs| - 1]) + xs[|xs| - 1]
  }

  function Min(xs: seq<real>): (r: real)
    requires xs != []
    ensures r in xs && forall i :: 0 <= i < |xs| ==> r <= xs[i]
  {
    if |xs| == 1 then xs[0]
    else
      var m := Min(xs[..|xs| - 1]);
      if xs[|xs| - 1] < m then xs[|xs| - 1] else m
  }

  function Max(xs: seq<real>): (r: real)
    requires xs != []
    ensures r in xs && forall i :: 0 <= i < |xs| ==> xs[i] <= r
  {
    if |xs| == 1 then xs[0]
    else
      var m := Max(xs[..|xs| - 1]);
      if xs[|xs| - 1] > m then xs[|xs| - 1] else m
  }

  /** sum, average, min and max of a non-empty list of doubles. */
  function StatsOf(xs: seq<real>): NumericStats
    requires xs != []
  {
    NumericStats(Sum(xs) / (|xs| as real), Sum(xs), Min(xs), Max(xs))
  }

  /** A sum lies between the count times the least and the count times the greatest term. */
  lemma {:induction false} SumBounds(xs: seq<real>, lo: real, hi: real)
    requires forall i :: 0 <= i < |xs| ==> lo <= xs[i] <= hi
    ensures (|xs| as real) * lo <= Sum(xs) <= (|xs| as real) * hi
  {
    if xs != [] {
      var init := xs[..|xs| - 1];
      forall i | 0 <= i < |init|
        ensures lo <= init[i] <= hi
      {
        assert init[i] == xs[i];
      }
      SumBounds(init, lo, hi);
    }
  }

  /** The mean lies between the minimum and the maximum, which are values of the column. */
  lemma StatsBounds(xs: seq<real>)
    requires xs != []
    ensures var s := StatsOf(xs);
      s.min in xs && s.max in xs && s.min <= s.mean <= s.max
      && forall i :: 0 <= i < |xs| ==> s.min <= xs[i] <= s.max
  {
    var n := |xs| as real;
    var lo, hi, sum := Min(xs), Max(xs), Sum(xs);
    SumBounds(xs, lo, hi);
    ScaledBounds(n, lo, sum, hi);
    assert StatsOf(xs) == NumericStats(sum / n, sum, lo, hi);
  }

  /** Dividing n * lo <= x <= n * hi by a positive n. */
  lemma ScaledBounds(n: real, lo: real, x: real, hi: real)
    requires n > 0.0 && n * lo <= x <= n * hi
    ensures lo <= x / n <= hi
  {
    var m := x / n;
    assert x == n * m;
    assert n * (m - lo) >= 0.0;
    assert n * (hi - m) >= 0.0;
  }

  /** numericStats after the loop has visited the columns `done`. */
  function StatsOver(numeric: map<string, seq<real>>, done: set<string>): map<string, NumericStats> {
    map k | k in done && k in numeric && numeric[k] != [] :: StatsOf(numeric[k])
  }

  /**
   * The numericStats loop: for every column with at least one number, its
   * statistics.
   */
  method ComputeNumericStats(numeric: map<string, seq<real>>) returns (stats: map<string, NumericStats>)
    ensures stats == StatsOver(numeric, numeric.Keys)
  {
    stats := map[];
    var todo := numeric.Keys;
    ghost var done: set<string> := {};
    while todo != {}
      invariant todo <= numeric.Keys && done == numeric.Keys - todo
      invariant stats == StatsOver(numeric, done)
      decreases |todo|
    {
      var k :| k in todo;
      var values := numeric[k];
      if values != [] {
        stats := stats[k := StatsOf(values)];
      }
      todo := todo - {k};
      done := done + {k};
    }
  }

  /** Every reported column has a number, and its statistics bound all of its numbers. */
  lemma NumericStatsOutcome(cleaned: Dataset, k: string)
    ensures var stats := StatsOver(ColumnAnalysis.NumericColumns(cleaned), ColumnAnalysis.NumericColumns(cleaned).Keys);
      (k in stats <==> exists i :: 0 <= i < |cleaned| && k in cleaned[i] && IsNumber(cleaned[i][k]))
      && (k in stats ==>
            forall i :: 0 <= i < |cleaned| && k in cleaned[i] && IsNumber(cleaned[i][k]) ==>
              stats[k].min <= AsReal(cleaned[i][k]) <= stats[k].max)
  {
    var numeric := ColumnAnalysis.NumericColumns(cleaned);
    var xs := ColumnAnalysis.NumericSample(cleaned, k);
    ColumnAnalysis.NumericSampleEmpty(cleaned, k);
    if xs != [] {
      StatsBounds(xs);
      forall i | 0 <= i < |cleaned| && k in cleaned[i] && IsNumber(cleaned[i][k])
        ensures Min(xs) <= AsReal(cleaned[i][k]) <= Max(xs)
      {
        ColumnAnalysis.NumericSampleMembers(cleaned, k, AsReal(cleaned[i][k]));
      }
    }
  }

  /** A value the column-type pass records: neither null nor the string "N/A". */
  predicate Reportable(v: Value) {
    v != Null && v != Str(NotAvailable)
  }

  /** The first reportable value under `k`, in row order. */
  function FirstReportable(data: Dataset, k: string): (r: Option<Value>)
    ensures r.Some? ==> Reportable(r.value)
  {
    if data == [] then None
    else
      var last := data[|data| - 1];
      var earlier := FirstReportable(data[..|data| - 1], k);
      if earlier.Some? then earlier
      else if k in last && Reportable(last[k]) then Some(last[k])
      else None
  }

  /** columnTypes: each column's class name, taken from its first reportable value. */
  function ColumnTypes(data: Dataset): map<string, string> {
    map k | k in ColumnAnalysis.Columns(data) && FirstReportable(data, k).Some? :: ClassName(FirstReportable(data, k).value)
  }

  /**
   * FirstReportable finds the earliest row holding a reportable value
   * under `k`, and nothing when there is none.
   */
  lemma {:induction false} FirstReportableOutcome(data: Dataset, k: string)
    ensures FirstReportable(data, k).None? <==>
      forall i :: 0 <= i < |data| && k in data[i] ==> !Reportable(data[i][k])
    ensures FirstReportable(data, k).Some? ==>
      exists i :: 0 <= i < |data| && k in data[i] && data[i][k] == FirstReportable(data, k).value
        && forall j :: 0 <= j < i && k in data[j] ==> !Reportable(data[j][k])
  {
    if data != [] {
      var init := data[..|data| - 1];
      FirstReportableOutcome(init, k);
      forall i | 0 <= i < |init|
        ensures init[i] == data[i]
      {
      }
      if FirstReportable(init, k).Some? {
        var i :| 0 <= i < |init| && k in init[i] && init[i][k] == FirstReportable(init, k).value
          && forall j :: 0 <= j < i && k in init[j] ==> !Reportable(init[j][k]);
        assert data[i] == init[i];
      }
    }
  }

  /** The effect of the inner loop after it has visited the keys `done` of `row`. */
  function AddRowTypes(m: map<string, string>, row: Row, done: set<string>): map<string, string> {
    map k | k in m.Keys + (set j | j in done && j in row && Reportable(row[j])) ::
      if k in m then m[k] else ClassName(row[k])
  }

  lemma AddRowTypesNone(m: map<string, string>, row: Row)
    ensures AddRowTypes(m, row, {}) == m
  {
    var a := AddRowTypes(m, row, {});
    forall j
      ensures j in a <==> j in m
      ensures j in a ==> a[j] == m[j]
    {
    }
  }

  /** One more key visited: computeIfAbsent records it only when the column has no class yet. */
  lemma AddRowTypesStep(m: map<string, string>, row: Row, done: set<string>, k: string)
    requires k in row && k !in done
    ensures var a := AddRowTypes(m, row, done);
      (if Reportable(row[k]) && k !in a then a[k := ClassName(row[k])] else a)
        == AddRowTypes(m, row, done + {k})
  {
    var a := AddRowTypes(m, row, done);
    var b := AddRowTypes(m, row, done + {k});
    var c := if Reportable(row[k]) && k !in a then a[k := ClassName(row[k])] else a;
    forall j
      ensures j in c <==> j in b
      ensures j in c ==> c[j] == b[j]
    {
    }
  }

  /** Visiting every key of the next row extends the column types by that row. */
  lemma AddRowTypesComplete(data: Dataset, row: Row)
    ensures AddRowTypes(ColumnTypes(data), row, row.Keys) == ColumnTypes(data + [row])
  {
    var lhs := AddRowTypes(ColumnTypes(data), row, row.Keys);
    var rhs := ColumnTypes(data + [row]);
    forall k
      ensures k in lhs <==> k in rhs
      ensures k in lhs ==> lhs[k] == rhs[k]
    {
      AddRowTypesAt(data, row, k);
    }
  }

  /** AddRowTypesComplete at one key. */
  lemma AddRowTypesAt(data: Dataset, row: Row, k: string)
    ensures var lhs := AddRowTypes(ColumnTypes(data), row, row.Keys);
      var rhs := ColumnTypes(data + [row]);
      (k in lhs <==> k in rhs) && (k in lhs ==> lhs[k] == rhs[k])
  {
    var d := data + [row];
    assert d[..|d| - 1] == data;
    ColumnAnalysis.ColumnsSnoc(data, row);
    if FirstReportable(data, k).Some? && k !in ColumnAnalysis.Columns(data) {
      FirstReportableOutcome(data, k);
    }
  }

  /** The inner loop: computeIfAbsent for every reportable entry of one row. */
  method AddRowToColumnTypes(m0: map<string, string>, row: Row) returns (m: map<string, string>)
    ensures m == AddRowTypes(m0, row, row.Keys)
  {
    m := m0;
    var todo := row.Keys;
    ghost var done: set<string> := {};
    AddRowTypesNone(m0, row);
    while todo != {}
      invariant todo <= row.Keys && done == row.Keys - todo
      invariant m == AddRowTypes(m0, row, done)
      decreases |todo|
    {
      var k :| k in todo;
      AddRowTypesStep(m0, row, done, k);
      var value := row[k];
      if value != Null && value != Str(NotAvailable) && k !in m {
        m := m[k := ClassName(value)];
      }
      todo := todo - {k};
      done := done + {k};
    }
  }

  /** The columnTypes loop over the cleaned rows. */
  method CollectColumnTypes(data: Dataset) returns (m: map<string, string>)
    ensures m == ColumnTypes(data)
  {
    m := map[];
    assert ColumnTypes(data[..0]) == map[];
    for i := 0 to |data|
      invariant m == ColumnTypes(data[..i])
    {
      m := AddRowToColumnTypes(m, data[i]);
      AddRowTypesComplete(data[..i], data[i]);
      assert data[..i + 1] == data[..i] + [data[i]];
    }
    assert data[..|data|] == data;
  }

  /**
   * A column has a type exactly when some row holds a reportable value
   * under it, and the type is the class of the first such value.
   */
  lemma ColumnTypesOutcome(data: Dataset, k: string)
    ensures k in ColumnTypes(data) <==>
      exists i :: 0 <= i < |data| && k in data[i] && Reportable(data[i][k])
    ensures k in ColumnTypes(data) ==>
      exists i :: 0 <= i < |data| && k in data[i] && Reportable(data[i][k])
        && ColumnTypes(data)[k] == ClassName(data[i][k])
        && forall j :: 0 <= j < i && k in data[j] ==> !Reportable(data[j][k])
  {
    FirstReportableOutcome(data, k);
  }

  /** The report handed back with the cleaned data. */
  datatype DataQualityReport = DataQualityReport(
    totalRecords: nat,
    processedRecords: nat,
    missingValuesCount: map<string, nat>,
    uniqueValuesCount: map<string, nat>,
    numericStats: map<string, NumericStats>,
    columnTypes: map<string, string>)

  /** generateDataQualityReport as one value. */
  function ReportOf(raw: Dataset, cleaned: Dataset): DataQualityReport {
    var numeric := ColumnAnalysis.NumericColumns(cleaned);
    DataQualityReport(
      |raw|, |cleaned|,
      MissingValuesCount(raw),
      UniqueValuesCount(cleaned),
      StatsOver(numeric, numeric.Keys),
      ColumnTypes(cleaned))
  }

  /** generateDataQualityReport: the two stream aggregations, then the three loops. */
  method GenerateReport(raw: Dataset, cleaned: Dataset) returns (report: DataQualityReport)
    ensures report == ReportOf(raw, cleaned)
  {
    var missingValuesCount := MissingValuesCount(raw);
    var uniqueValues := ColumnAnalysis.CollectUniqueValues(cleaned);
    var uniqueValuesCount := map k | k in uniqueValues :: |uniqueValues[k]|;
    var numericColumns := ColumnAnalysis.CollectNumericColumns(cleaned);
    var numericStats := ComputeNumericStats(numericColumns);
    var columnTypes := CollectColumnTypes(cleaned);
    report := DataQualityReport(|raw|, |cleaned|, missingValuesCount, uniqueValuesCount, numericStats, columnTypes);
  }
}
