/**
 * HandleMissingValuesStep: every null, blank or "null" cell becomes the
 * sentinel "N/A"; everything else is kept.
 */
module MissingValues {
  import opened Text
  import opened Values

  /** null, a String that trims to nothing, or the text "null" in any case. */
  predicate IsMissing(v: Value) {
    v.Null? || (v.Str? && (Trim(v.s) == [] || EqualsIgnoreCase(v.s, "null")))
  }

  function FillValue(v: Value): (r: Value)
    ensures !IsMissing(r)
    ensures IsMissing(v) ==> r == Str(NotAvailable)
    ensures !IsMissing(v) ==> r == v
  {
    NotAvailableNotMissing();
    if IsMissing(v) then Str(NotAvailable) else v
  }

  /** The filler itself is not missing: "N/A" is not blank and is not "null" in any case. */
  lemma NotAvailableNotMissing()
    ensures !IsMissing(Str(NotAvailable))
  {
    TrimIdentity(NotAvailable);
    assert |ToLower(NotAvailable)| == 3 != |ToLower("null")|;
  }

  function FillRow(row: Row): (r: Row)
    ensures r.Keys == row.Keys
    ensures forall k :: k in r ==> r[k] == FillValue(row[k])
  {
    map k | k in row :: FillValue(row[k])
  }

  /** The step: the same rows, in order, with the same keys and no missing value left. */
  function HandleMissingValues(data: Dataset): (r: Dataset)
    ensures SameShape(data, r)
    ensures forall i, k :: 0 <= i < |r| && k in r[i] ==> r[i][k] == FillValue(data[i][k])
    ensures forall i, k :: 0 <= i < |r| && k in r[i] ==> !IsMissing(r[i][k])
    ensures NoNulls(r)
  {
    seq(|data|, i requires 0 <= i < |data| => FillRow(data[i]))
  }

  /** Only missing values change, and "N/A" itself is kept. */
  lemma OnlyMissingChanges(data: Dataset, i: int, k: string)
    requires 0 <= i < |data| && k in data[i]
    ensures HandleMissingValues(data)[i][k] != data[i][k] ==> IsMissing(data[i][k])
    ensures data[i][k] == Str(NotAvailable) ==> HandleMissingValues(data)[i][k] == Str(NotAvailable)
  {
    if data[i][k] == Str(NotAvailable) {
      assert !IsMissing(data[i][k]) by {
        TrimIdentity(NotAvailable);
        assert ToLower(NotAvailable) != ToLower("null");
      }
    }
  }

  /** Applying the step twice is applying it once. */
  lemma HandleMissingValuesIdempotent(data: Dataset)
    ensures HandleMissingValues(HandleMissingValues(data)) == HandleMissingValues(data)
  {
    var once := HandleMissingValues(data);
    var twice := HandleMissingValues(once);
    forall i | 0 <= i < |once|
      ensures twice[i] == once[i]
    {
      assert twice[i].Keys == once[i].Keys;
      forall k | k in once[i]
        ensures twice[i][k] == once[i][k]
      {
      }
    }
  }
}
