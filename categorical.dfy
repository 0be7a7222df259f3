/**
 * CategoricalStandardizationStep: columns with few distinct values (at most
 * half the row count) are treated as categories, and their String values
 * are trimmed with each whitespace run replaced by "_".
 */
module Categorical {
  import opened Wrappers
  import opened Text
  import opened Values
  import opened ColumnAnalysis

  /** `value.trim().replaceAll("\\s+", "_")` */
  function Standardize(s: string): string {
    CollapseRuns(Trim(s), RegexSpace(), '_')
  }

  /** A standardised category holds no whitespace. */
  lemma StandardizeNoSpace(s: string)
    ensures forall i :: 0 <= i < |Standardize(s)| ==> !IsRegexSpace(Standardize(s)[i])
  {
    var u := Standardize(s);
    CollapseChars(Trim(s), RegexSpace(), '_');
    forall i | 0 <= i < |u|
      ensures !IsRegexSpace(u[i])
    {
      assert u[i] in u;
    }
  }

  /** A standardised category neither starts nor ends with a blank. */
  lemma StandardizeTrimmed(s: string)
    ensures Trim(Standardize(s)) == Standardize(s)
  {
    var t := Trim(s);
    var u := Standardize(s);
    TrimShape(s);
    if t != [] {
      assert !IsRegexSpace(t[0]) && !IsRegexSpace(t[|t| - 1]);
      CollapseEnds(t, RegexSpace(), '_');
      assert !IsControlOrSpace(u[0]) && !IsControlOrSpace(u[|u| - 1]);
    }
    TrimIdentity(u);
  }

  /** Standardising twice is standardising once. */
  lemma StandardizeIdempotent(s: string)
    ensures Standardize(Standardize(s)) == Standardize(s)
  {
    StandardizeTrimmed(s);
    CollapseIdempotent(Trim(s), RegexSpace(), '_');
  }

  /** The columns whose distinct-value count is at most half the number of rows. */
  function CategoricalColumns(unique: map<string, set<Value>>, rows: nat): (r: set<string>)
    ensures forall k :: k in r <==> k in unique && |unique[k]| <= rows / 2
  {
    set k | k in unique && |unique[k]| <= rows / 2
  }

  function StandardizeValue(v: Value, categorical: bool): (r: Value)
    ensures categorical && v.Str? ==> r == Str(Standardize(v.s))
    ensures !categorical || !v.Str? ==> r == v
  {
    if categorical && v.Str? then Str(Standardize(v.s)) else v
  }

  function StandardizeRows(data: Dataset, categorical: set<string>): (r: Dataset)
    ensures SameShape(data, r)
    ensures forall i, k :: 0 <= i < |r| && k in r[i] ==> r[i][k] == StandardizeValue(data[i][k], k in categorical)
  {
    seq(|data|, i requires 0 <= i < |data| => map k | k in data[i] :: StandardizeValue(data[i][k], k in categorical))
  }

  /** A category as the step leaves it: no whitespace, nothing to trim. */
  predicate IsCleanCategory(s: string) {
    Trim(s) == s && forall j :: 0 <= j < |s| ==> !IsRegexSpace(s[j])
  }

  /**
   * A String in a categorical column comes out as a clean category, and
   * every other cell comes out as it went in; rewriting again with the same
   * columns changes nothing.
   */
  lemma StandardizeRowsClean(data: Dataset, categorical: set<string>)
    ensures forall i, k :: 0 <= i < |data| && k in data[i] && k in categorical && data[i][k].Str? ==>
      StandardizeRows(data, categorical)[i][k].Str? && IsCleanCategory(StandardizeRows(data, categorical)[i][k].s)
    ensures forall i, k :: 0 <= i < |data| && k in data[i] && (k !in categorical || !data[i][k].Str?) ==>
      StandardizeRows(data, categorical)[i][k] == data[i][k]
    ensures StandardizeRows(StandardizeRows(data, categorical), categorical) == StandardizeRows(data, categorical)
  {
    var once := StandardizeRows(data, categorical);
    var twice := StandardizeRows(once, categorical);
    forall i, k | 0 <= i < |data| && k in data[i] && k in categorical && data[i][k].Str?
      ensures once[i][k].Str? && IsCleanCategory(once[i][k].s)
    {
      StandardizeNoSpace(data[i][k].s);
      StandardizeTrimmed(data[i][k].s);
    }
    forall i | 0 <= i < |once|
      ensures twice[i] == once[i]
    {
      forall k | k in once[i]
        ensures twice[i][k] == once[i][k]
      {
        if k in categorical && data[i][k].Str? {
          StandardizeIdempotent(data[i][k].s);
        }
      }
    }
  }

  /** The step: analyse, pick the categorical columns, rewrite, collect. */
  function CategoricalStandardization(data: Dataset): Result<Dataset, Error> {
    if data == [] then Ok(data)
    else Collect(StandardizeRows(data, CategoricalColumns(UniqueValues(data), |data|)))
  }

  /** CategoricalStandardizationStep.process, with its analyse loop. */
  method Process(data: Dataset) returns (r: Result<Dataset, Error>)
    ensures r == CategoricalStandardization(data)
  {
    if data == [] {
      return Ok(data);
    }
    var unique := CollectUniqueValues(data);
    var categorical := set k | k in unique && |unique[k]| <= |data| / 2;
    r := Collect(StandardizeRows(data, categorical));
  }

  /**
   * An empty dataset comes back as it is; otherwise the step fails exactly
   * when a value is null, and succeeds with the same rows, keys and order,
   * Strings standardised in categorical columns and nothing else changed.
   */
  lemma CategoricalOutcome(data: Dataset)
    ensures data == [] ==> CategoricalStandardization(data) == Ok(data)
    ensures data != [] ==> (CategoricalStandardization(data).Err? <==> !NoNulls(data))
    ensures CategoricalStandardization(data).Ok? ==>
      var r := CategoricalStandardization(data).value;
      var cats := CategoricalColumns(UniqueValues(data), |data|);
      SameShape(data, r)
      && forall i, k :: 0 <= i < |r| && k in r[i] ==> r[i][k] == StandardizeValue(data[i][k], k in cats)
  {
    if data != [] && !NoNulls(data) {
      var i, k :| 0 <= i < |data| && k in data[i] && data[i][k] == Null;
      var cats := CategoricalColumns(UniqueValues(data), |data|);
      assert StandardizeRows(data, cats)[i][k] == Null;
    }
  }

  /** A column has at least one distinct value, so a single row is never a category. */
  lemma SingleRowUnchanged(data: Dataset)
    requires |data| == 1 && NoNulls(data)
    ensures CategoricalStandardization(data) == Ok(data)
  {
    var unique := UniqueValues(data);
    forall k | k in unique
      ensures |unique[k]| > 1 / 2
    {
      assert k in data[0];
      assert data[0][k] in unique[k];
    }
    assert CategoricalColumns(unique, 1) == {};
    NoCategoriesNoChange(data);
  }

  /** Without categorical columns the rewrite is the identity. */
  lemma NoCategoriesNoChange(data: Dataset)
    ensures StandardizeRows(data, {}) == data
  {
    var r := StandardizeRows(data, {});
    forall i | 0 <= i < |data|
      ensures r[i] == data[i]
    {
      assert forall k :: k in r[i] ==> r[i][k] == data[i][k];
    }
  }

  /** Running the step on its own output changes nothing. */
  lemma CategoricalIdempotent(data: Dataset)
    requires CategoricalStandardization(data).Ok?
    ensures var r := CategoricalStandardization(data).value;
      CategoricalStandardization(r) == Ok(r)
  {
    if data != [] {
      var r := CategoricalStandardization(data).value;
      var cats := CategoricalColumns(UniqueValues(data), |data|);
      var cats' := CategoricalColumns(UniqueValues(r), |r|);
      var r' := StandardizeRows(r, cats');
      forall i, k | 0 <= i < |r| && k in r[i]
        ensures r'[i][k] == r[i][k]
      {
        var v := data[i][k];
        if k in cats {
          if v.Str? {
            StandardizeIdempotent(v.s);
          }
        } else {
          ColumnUnchanged(data, r, cats, k);
          assert k in Columns(data);
          assert k !in cats';
        }
      }
      forall i | 0 <= i < |r|
        ensures r'[i] == r[i]
      {
      }
      assert r' == r;
    }
  }

  /** A column outside the categories keeps its distinct values. */
  lemma ColumnUnchanged(data: Dataset, r: Dataset, cats: set<string>, k: string)
    requires r == StandardizeRows(data, cats) && k !in cats
    ensures ColumnValues(r, k) == ColumnValues(data, k)
  {
    forall v | v in ColumnValues(data, k)
      ensures v in ColumnValues(r, k)
    {
      var i :| 0 <= i < |data| && k in data[i] && data[i][k] == v;
      assert r[i][k] == v;
    }
  }
}
