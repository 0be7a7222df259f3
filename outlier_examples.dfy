/**
 * OutlierDetectionStep on a dataset with a single numeric column: the step
 * computes that column's quartiles and bounds itself and flags exactly the
 * numbers outside them, as in the worked column 1, 2, 3, 4, 100.
 */
module OutlierExamples {
  import opened Wrappers
  import opened Numbers
  import opened Values
  import opened ColumnAnalysis
  import opened Outliers

  /** A row holding the single number `x` under `k`. */
  function NumberRow(k: string, x: real): Row {
    map[k := Dbl(x)]
  }

  /** One row per number of `xs`, in order, each holding it under `k`. */
  function NumberColumn(k: string, xs: seq<real>): (r: Dataset)
    ensures |r| == |xs|
    ensures forall i :: 0 <= i < |xs| ==> r[i] == NumberRow(k, xs[i])
  {
    seq(|xs|, i requires 0 <= i < |xs| => NumberRow(k, xs[i]))
  }

  /** What the step makes of the row holding `x`, given the column's bounds. */
  function FlaggedNumber(k: string, x: real, lower: real, upper: real): Row {
    if x < lower || x > upper then map[k := Str("OUTLIER_" + DoubleText(x))] else NumberRow(k, x)
  }

  /** The sample the step collects from the column is the column's numbers in order. */
  lemma {:induction false} NumberColumnSample(k: string, xs: seq<real>)
    ensures NumericSample(NumberColumn(k, xs), k) == xs
  {
    if xs != [] {
      var n := |xs| - 1;
      NumberColumnSample(k, xs[..n]);
      assert NumberColumn(k, xs) == NumberColumn(k, xs[..n]) + [NumberRow(k, xs[n])];
      NumericSampleSnoc(NumberColumn(k, xs[..n]), NumberRow(k, xs[n]), k);
      assert xs == xs[..n] + [xs[n]];
    }
  }

  lemma NumberColumnColumns(k: string, xs: seq<real>)
    requires xs != []
    ensures Columns(NumberColumn(k, xs)) == {k}
  {
    var data := NumberColumn(k, xs);
    forall c | c in Columns(data)
      ensures c == k
    {
      var i :| 0 <= i < |data| && c in data[i];
    }
    assert k in data[0];
  }

  lemma NumberColumnNumeric(k: string, xs: seq<real>)
    requires xs != []
    ensures NumericColumns(NumberColumn(k, xs)) == map[k := xs]
  {
    NumberColumnColumns(k, xs);
    NumberColumnSample(k, xs);
  }

  lemma SingleColumnBounds(k: string, xs: seq<real>)
    requires xs != []
    ensures LowerBoundsOf(map[k := xs]) == map[k := LowerOf(xs)]
    ensures UpperBoundsOf(map[k := xs]) == map[k := UpperOf(xs)]
  {
  }

  /** The column's bounds are those of its sample; no other column has bounds. */
  lemma NumberColumnBounds(k: string, xs: seq<real>)
    requires xs != []
    ensures LowerBounds(NumberColumn(k, xs)) == map[k := LowerOf(xs)]
    ensures UpperBounds(NumberColumn(k, xs)) == map[k := UpperOf(xs)]
  {
    NumberColumnNumeric(k, xs);
    SingleColumnBounds(k, xs);
  }

  /** Flagging the row that holds `x` alone. */
  lemma FlagNumberRow(data: Dataset, i: nat, k: string, x: real, lower: real, upper: real)
    requires i < |data| && data[i] == NumberRow(k, x)
    ensures FlagRows(data, map[k := lower], map[k := upper])[i] == FlaggedNumber(k, x, lower, upper)
  {
    var flagged := FlagRows(data, map[k := lower], map[k := upper]);
    assert flagged[i].Keys == {k};
  }

  /**
   * On a single numeric column the step flags exactly the numbers below the
   * column's lower bound or above its upper bound, and keeps every other row.
   */
  lemma NumberColumnOutliers(k: string, xs: seq<real>)
    requires xs != []
    ensures OutlierDetection(NumberColumn(k, xs))
      == Ok(seq(|xs|, i requires 0 <= i < |xs| => FlaggedNumber(k, xs[i], LowerOf(xs), UpperOf(xs))))
  {
    var data := NumberColumn(k, xs);
    var lower, upper := LowerOf(xs), UpperOf(xs);
    NumberColumnBounds(k, xs);
    var flagged := FlagRows(data, map[k := lower], map[k := upper]);
    var expected := seq(|xs|, i requires 0 <= i < |xs| => FlaggedNumber(k, xs[i], lower, upper));
    forall i | 0 <= i < |xs|
      ensures flagged[i] == expected[i]
    {
      FlagNumberRow(data, i, k, xs[i], lower, upper);
    }
    assert flagged == expected;
    assert NoNulls(flagged);
  }

  lemma HundredMarker()
    ensures "OUTLIER_" + DoubleText(100.0) == "OUTLIER_100.0"
  {
    DoubleTextOfWhole(100);
  }

  /** On the column 1, 2, 3, 4, 100 (bounds -1 and 7) the step turns 100 into "OUTLIER_100.0" and keeps the rest. */
  lemma WorkedExampleFlags(k: string)
    ensures OutlierDetection(NumberColumn(k, [1.0, 2.0, 3.0, 4.0, 100.0]))
      == Ok([NumberRow(k, 1.0), NumberRow(k, 2.0), NumberRow(k, 3.0), NumberRow(k, 4.0), map[k := Str("OUTLIER_100.0")]])
  {
    var xs := [1.0, 2.0, 3.0, 4.0, 100.0];
    WorkedExample();
    assert LowerOf(xs) == -1.0 && UpperOf(xs) == 7.0;
    NumberColumnOutliers(k, xs);
    HundredMarker();
    var expected := seq(|xs|, i requires 0 <= i < |xs| => FlaggedNumber(k, xs[i], -1.0, 7.0));
    assert expected[4] == map[k := Str("OUTLIER_100.0")];
    assert expected == [NumberRow(k, 1.0), NumberRow(k, 2.0), NumberRow(k, 3.0), NumberRow(k, 4.0), map[k := Str("OUTLIER_100.0")]];
  }
}
