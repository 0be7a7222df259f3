/**
 * OutlierDetectionStep: per column, the numbers are sorted, the first and
 * third quartiles are read at indices n/4 and 3n/4, and every number
 * further than 1.5 interquartile ranges outside [q1, q3] is replaced by the
 * text "OUTLIER_" followed by the number. Doubles are modelled as reals.
 */
module Outliers {
  import opened Wrappers
  import opened Numbers
  import opened Values
  import opened ColumnAnalysis

  predicate Sorted(xs: seq<real>) {
    forall i, j :: 0 <= i < j < |xs| ==> xs[i] <= xs[j]
  }

  function Insert(x: real, xs: seq<real>): (r: seq<real>)
    ensures |r| == |xs| + 1
  {
    if xs == [] || x <= xs[0] then [x] + xs
    else [xs[0]] + Insert(x, xs[1..])
  }

  /** Inserting adds exactly the one element. */
  lemma {:induction false} InsertElements(x: real, xs: seq<real>)
    ensures multiset(Insert(x, xs)) == multiset(xs) + multiset{x}
  {
    if xs != [] && x > xs[0] {
      InsertElements(x, xs[1..]);
      assert xs == [xs[0]] + xs[1..];
    }
  }

  /** A lower bound of the element and of the list bounds every element of the insertion. */
  lemma {:induction false} InsertLowerBound(x: real, xs: seq<real>, lo: real)
    requires lo <= x && forall j :: 0 <= j < |xs| ==> lo <= xs[j]
    ensures forall j :: 0 <= j < |Insert(x, xs)| ==> lo <= Insert(x, xs)[j]
  {
    if xs != [] && x > xs[0] {
      InsertLowerBound(x, xs[1..], lo);
      var rest := Insert(x, xs[1..]);
      assert Insert(x, xs) == [xs[0]] + rest;
    }
  }

  /** A list headed by a lower bound of a sorted tail is sorted. */
  lemma ConsSorted(y: real, ys: seq<real>)
    requires Sorted(ys) && forall j :: 0 <= j < |ys| ==> y <= ys[j]
    ensures Sorted([y] + ys)
  {
    var r := [y] + ys;
    forall i, j | 0 <= i < j < |r|
      ensures r[i] <= r[j]
    {
      assert r[j] == ys[j - 1];
      if i > 0 {
        assert r[i] == ys[i - 1];
      }
    }
  }

  /** Inserting into a sorted list keeps it sorted. */
  lemma {:induction false} InsertSorted(x: real, xs: seq<real>)
    requires Sorted(xs)
    ensures Sorted(Insert(x, xs))
  {
    if xs == [] || x <= xs[0] {
      ConsSorted(x, xs);
    } else {
      assert Sorted(xs[1..]) by {
        forall i, j | 0 <= i < j < |xs[1..]|
          ensures xs[1..][i] <= xs[1..][j]
        {
          assert xs[1..][i] == xs[i + 1] && xs[1..][j] == xs[j + 1];
        }
      }
      InsertSorted(x, xs[1..]);
      assert forall j :: 0 <= j < |xs[1..]| ==> xs[0] <= xs[1..][j] by {
        forall j | 0 <= j < |xs[1..]|
          ensures xs[0] <= xs[1..][j]
        {
          assert xs[1..][j] == xs[j + 1];
        }
      }
      InsertLowerBound(x, xs[1..], xs[0]);
      ConsSorted(xs[0], Insert(x, xs[1..]));
    }
  }

  /** Inserting into a sorted list keeps it sorted and adds exactly the one element. */
  lemma InsertFacts(x: real, xs: seq<real>)
    requires Sorted(xs)
    ensures Sorted(Insert(x, xs))
    ensures multiset(Insert(x, xs)) == multiset(xs) + multiset{x}
  {
    InsertElements(x, xs);
    InsertSorted(x, xs);
  }

  /** List.stream().sorted() on doubles: an insertion sort. */
  function Sort(xs: seq<real>): (r: seq<real>)
    ensures |r| == |xs|
  {
    if xs == [] then [] else Insert(xs[0], Sort(xs[1..]))
  }

  /** The sorted list is in ascending order and holds the same elements. */
  lemma {:induction false} SortFacts(xs: seq<real>)
    ensures Sorted(Sort(xs))
    ensures multiset(Sort(xs)) == multiset(xs)
  {
    if xs != [] {
      SortFacts(xs[1..]);
      InsertFacts(xs[0], Sort(xs[1..]));
      assert xs == [xs[0]] + xs[1..];
    }
  }

  datatype Bounds = Bounds(lower: real, upper: real)

  /** The two quartiles the step reads: sorted[n/4] and sorted[3n/4], both in range for any n >= 1. */
  function Quartiles(sample: seq<real>): (real, real)
    requires sample != []
  {
    var sorted := Sort(sample);
    var n := |sorted|;
    (sorted[n / 4], sorted[3 * n / 4])
  }

  /** Both quartiles are values of the sample, the first no larger than the second. */
  lemma QuartileFacts(sample: seq<real>)
    requires sample != []
    ensures Quartiles(sample).0 in sample && Quartiles(sample).1 in sample
    ensures Quartiles(sample).0 <= Quartiles(sample).1
  {
    var sorted := Sort(sample);
    var n := |sorted|;
    SortFacts(sample);
    assert sorted[n / 4] in multiset(sorted) && sorted[3 * n / 4] in multiset(sorted);
  }

  /** lower = q1 - 1.5 iqr and upper = q3 + 1.5 iqr. */
  function ColumnBounds(sample: seq<real>): Bounds
    requires sample != []
  {
    var (q1, q3) := Quartiles(sample);
    var iqr := q3 - q1;
    Bounds(q1 - 1.5 * iqr, q3 + 1.5 * iqr)
  }

  /** The bounds enclose the quartiles: lower <= q1 <= q3 <= upper. */
  lemma BoundsEncloseQuartiles(sample: seq<real>)
    requires sample != []
    ensures var b := ColumnBounds(sample);
      b.lower <= Quartiles(sample).0 <= Quartiles(sample).1 <= b.upper
      && b.upper - b.lower == 4.0 * (Quartiles(sample).1 - Quartiles(sample).0)
  {
    QuartileFacts(sample);
  }

  predicate AllNonEmpty(numeric: map<string, seq<real>>) {
    forall k :: k in numeric ==> numeric[k] != []
  }

  function AllBounds(numeric: map<string, seq<real>>): (r: map<string, Bounds>)
    requires AllNonEmpty(numeric)
    ensures r.Keys == numeric.Keys
  {
    map k | k in numeric :: ColumnBounds(numeric[k])
  }

  lemma NumericColumnsNonEmpty(data: Dataset)
    ensures AllNonEmpty(NumericColumns(data))
  {
  }

  function LowerOf(sample: seq<real>): real
    requires sample != []
  {
    ColumnBounds(sample).lower
  }

  function UpperOf(sample: seq<real>): real
    requires sample != []
  {
    ColumnBounds(sample).upper
  }

  /** The lower bounds of the columns in `done`. */
  function LowerOver(numeric: map<string, seq<real>>, done: set<string>): map<string, real>
    requires AllNonEmpty(numeric)
  {
    map k | k in numeric && k in done :: LowerOf(numeric[k])
  }

  /** The upper bounds of the columns in `done`. */
  function UpperOver(numeric: map<string, seq<real>>, done: set<string>): map<string, real>
    requires AllNonEmpty(numeric)
  {
    map k | k in numeric && k in done :: UpperOf(numeric[k])
  }

  function LowerBoundsOf(numeric: map<string, seq<real>>): map<string, real>
    requires AllNonEmpty(numeric)
  {
    LowerOver(numeric, numeric.Keys)
  }

  function UpperBoundsOf(numeric: map<string, seq<real>>): map<string, real>
    requires AllNonEmpty(numeric)
  {
    UpperOver(numeric, numeric.Keys)
  }

  /** One more column visited by the bounds loop. */
  lemma BoundsStep(numeric: map<string, seq<real>>, done: set<string>, k: string)
    requires AllNonEmpty(numeric) && k in numeric
    ensures LowerOver(numeric, done)[k := LowerOf(numeric[k])] == LowerOver(numeric, done + {k})
    ensures UpperOver(numeric, done)[k := UpperOf(numeric[k])] == UpperOver(numeric, done + {k})
  {
    var a := LowerOver(numeric, done)[k := LowerOf(numeric[k])];
    var b := LowerOver(numeric, done + {k});
    forall j
      ensures j in a <==> j in b
      ensures j in a ==> a[j] == b[j]
    {
    }
    var c := UpperOver(numeric, done)[k := UpperOf(numeric[k])];
    var d := UpperOver(numeric, done + {k});
    forall j
      ensures j in c <==> j in d
      ensures j in c ==> c[j] == d[j]
    {
    }
  }

  /** One column's turn of the bounds loop: sort, read q1 and q3, widen by 1.5 iqr. */
  method SampleBounds(sample: seq<real>) returns (lower: real, upper: real)
    requires sample != []
    ensures lower == LowerOf(sample) && upper == UpperOf(sample)
  {
    var values := Sort(sample);
    var size := |values|;
    var q1 := values[size / 4];
    var q3 := values[3 * size / 4];
    var iqr := q3 - q1;
    lower := q1 - 1.5 * iqr;
    upper := q3 + 1.5 * iqr;
  }

  /**
   * The bounds loop: for every column with numbers, sort its sample, read
   * the quartiles and store the two bounds.
   */
  method ComputeBounds(numeric: map<string, seq<real>>) returns (lowerBounds: map<string, real>, upperBounds: map<string, real>)
    requires AllNonEmpty(numeric)
    ensures lowerBounds == LowerBoundsOf(numeric)
    ensures upperBounds == UpperBoundsOf(numeric)
  {
    lowerBounds := map[];
    upperBounds := map[];
    var todo := numeric.Keys;
    ghost var done: set<string> := {};
    assert LowerOver(numeric, done) == map[] && UpperOver(numeric, done) == map[];
    while todo != {}
      invariant todo <= numeric.Keys && done == numeric.Keys - todo
      invariant lowerBounds == LowerOver(numeric, done)
      invariant upperBounds == UpperOver(numeric, done)
      decreases |todo|
    {
      var k :| k in todo;
      var lower, upper := SampleBounds(numeric[k]);
      BoundsStep(numeric, done, k);
      lowerBounds := lowerBounds[k := lower];
      upperBounds := upperBounds[k := upper];
      todo := todo - {k};
      done := done + {k};
    }
  }

  /** A number below its column's lower bound or above its upper bound; other columns have infinite bounds. */
  predicate IsOutlier(v: Value, k: string, lowerBounds: map<string, real>, upperBounds: map<string, real>) {
    IsNumber(v) && ((k in lowerBounds && AsReal(v) < lowerBounds[k]) || (k in upperBounds && AsReal(v) > upperBounds[k]))
  }

  function FlagValue(v: Value, k: string, lowerBounds: map<string, real>, upperBounds: map<string, real>): (r: Value)
    ensures IsOutlier(v, k, lowerBounds, upperBounds) ==> r == Str("OUTLIER_" + DoubleText(AsReal(v)))
    ensures !IsOutlier(v, k, lowerBounds, upperBounds) ==> r == v
    ensures r == Null <==> v == Null
  {
    if IsOutlier(v, k, lowerBounds, upperBounds) then Str("OUTLIER_" + DoubleText(AsReal(v))) else v
  }

  function FlagRows(data: Dataset, lowerBounds: map<string, real>, upperBounds: map<string, real>): (r: Dataset)
    ensures SameShape(data, r)
    ensures forall i, k :: 0 <= i < |r| && k in r[i] ==> r[i][k] == FlagValue(data[i][k], k, lowerBounds, upperBounds)
  {
    seq(|data|, i requires 0 <= i < |data| =>
      map k | k in data[i] :: FlagValue(data[i][k], k, lowerBounds, upperBounds))
  }

  /**
   * Flagging changes exactly the outliers, each into the "OUTLIER_" marker
   * followed by its value's text.
   */
  lemma FlagRowsChangesExactlyOutliers(data: Dataset, lowerBounds: map<string, real>, upperBounds: map<string, real>)
    ensures forall i, k :: 0 <= i < |data| && k in data[i] ==>
      (FlagRows(data, lowerBounds, upperBounds)[i][k] != data[i][k] <==> IsOutlier(data[i][k], k, lowerBounds, upperBounds))
    ensures forall i, k :: 0 <= i < |data| && k in data[i] && IsOutlier(data[i][k], k, lowerBounds, upperBounds) ==>
      FlagRows(data, lowerBounds, upperBounds)[i][k] == Str("OUTLIER_" + DoubleText(AsReal(data[i][k])))
  {
  }

  function LowerBounds(data: Dataset): map<string, real> {
    NumericColumnsNonEmpty(data);
    LowerBoundsOf(NumericColumns(data))
  }

  function UpperBounds(data: Dataset): map<string, real> {
    NumericColumnsNonEmpty(data);
    UpperBoundsOf(NumericColumns(data))
  }

  /** The step. */
  function OutlierDetection(data: Dataset): Result<Dataset, Error> {
    if data == [] then Ok(data)
    else Collect(FlagRows(data, LowerBounds(data), UpperBounds(data)))
  }

  /** OutlierDetectionStep.process, with its two loops. */
  method Process(data: Dataset) returns (r: Result<Dataset, Error>)
    ensures r == OutlierDetection(data)
  {
    if data == [] {
      return Ok(data);
    }
    var numeric := CollectNumericColumns(data);
    NumericColumnsNonEmpty(data);
    var lowerBounds, upperBounds := ComputeBounds(numeric);
    r := Collect(FlagRows(data, lowerBounds, upperBounds));
  }

  /**
   * An empty dataset comes back as it is; otherwise the step fails exactly
   * when a value is null, and succeeds with the same rows, keys and order,
   * every outlier replaced and every other value kept.
   */
  lemma OutlierOutcome(data: Dataset)
    ensures data == [] ==> OutlierDetection(data) == Ok(data)
    ensures data != [] ==> (OutlierDetection(data).Err? <==> !NoNulls(data))
    ensures OutlierDetection(data).Ok? && data != [] ==>
      var r := OutlierDetection(data).value;
      SameShape(data, r)
      && forall i, k :: 0 <= i < |r| && k in r[i] ==>
           r[i][k] == FlagValue(data[i][k], k, LowerBounds(data), UpperBounds(data))
  {
    if data != [] {
      FlagRowsNulls(data, LowerBounds(data), UpperBounds(data));
    }
  }

  /** Flagging turns no value into null and no null into anything else. */
  lemma FlagRowsNulls(data: Dataset, lowerBounds: map<string, real>, upperBounds: map<string, real>)
    ensures NoNulls(FlagRows(data, lowerBounds, upperBounds)) <==> NoNulls(data)
  {
    var r := FlagRows(data, lowerBounds, upperBounds);
    if !NoNulls(data) {
      var i, k :| 0 <= i < |data| && k in data[i] && data[i][k] == Null;
      assert r[i][k] == Null;
    }
  }

  /** A number between its column's quartiles is never an outlier. */
  lemma WithinQuartilesKept(data: Dataset, k: string, v: Value)
    requires k in NumericColumns(data)
    requires IsNumber(v)
    requires Quartiles(NumericColumns(data)[k]).0 <= AsReal(v) <= Quartiles(NumericColumns(data)[k]).1
    ensures !IsOutlier(v, k, LowerBounds(data), UpperBounds(data))
  {
    BoundsEncloseQuartiles(NumericColumns(data)[k]);
  }

  /** A column holding a single number is never flagged. */
  lemma SingleNumberKept(data: Dataset, i: int, k: string)
    requires 0 <= i < |data| && k in data[i] && IsNumber(data[i][k])
    requires |NumericSample(data, k)| == 1
    ensures !IsOutlier(data[i][k], k, LowerBounds(data), UpperBounds(data))
  {
    var x := AsReal(data[i][k]);
    NumericSampleMembers(data, k, x);
    var sample := NumericSample(data, k);
    assert x in sample;
    assert k in NumericColumns(data) && NumericColumns(data)[k] == sample;
    QuartileFacts(sample);
    assert Quartiles(sample).0 == x && Quartiles(sample).1 == x;
    WithinQuartilesKept(data, k, data[i][k]);
  }

  /** The sample [1, 2, 3, 4, 100]: quartiles 2 and 4, bounds -1 and 7. */
  lemma WorkedExample()
    ensures Quartiles([1.0, 2.0, 3.0, 4.0, 100.0]) == (2.0, 4.0)
    ensures ColumnBounds([1.0, 2.0, 3.0, 4.0, 100.0]) == Bounds(-1.0, 7.0)
  {
    SortExample();
  }

  /** Sorting a sorted list leaves it as it is. */
  lemma {:induction false} SortSorted(xs: seq<real>)
    requires Sorted(xs)
    ensures Sort(xs) == xs
  {
    if xs != [] {
      SortSorted(xs[1..]);
      assert xs == [xs[0]] + xs[1..];
      assert Insert(xs[0], xs[1..]) == xs;
    }
  }

  lemma SortExample()
    ensures Sort([1.0, 2.0, 3.0, 4.0, 100.0]) == [1.0, 2.0, 3.0, 4.0, 100.0]
  {
    SortSorted([1.0, 2.0, 3.0, 4.0, 100.0]);
  }
}
