/**
 * The data every cleaning step works on: a dataset is a list of rows, a row
 * maps column names to cell values, and a cell holds null or one of the
 * Java types the readers and steps produce.
 */
module Values {
  import opened Wrappers
  import opened Text
  import opened Numbers
  import opened Dates

  /**
   * A cell value: null, String, Integer, Long, Double, Boolean or LocalDate
   * (as its epoch day).
   */
  datatype Value =
    | Null
    | Str(s: string)
    | Int(i: Int32)
    | Long(l: Int64)
    | Dbl(d: real)
    | Bool(b: bool)
    | Date(day: int)

  /** The sentinel the steps write for a missing value and then leave alone. */
  const NotAvailable: string := "N/A"

  type Row = map<string, Value>
  type Dataset = seq<Row>

  /** Why a run stops without a cleaned dataset. */
  datatype Error =
    | NullValue                      // Collectors.toMap rejects a null value
    | DuplicateStepKey(key: string)  // Collectors.toMap rejects a repeated key
    | CsvEmpty                       // a CSV file without a header line
    | UnsupportedFormat(extension: string)
    | NoData                         // a file that yields no rows
    | NoFileName                     // an upload without an original file name
    | EmptyFile                      // an upload with no content
    | NoFirstRow                     // columns read off a cleaned dataset without rows

  /** `value instanceof Number` */
  predicate IsNumber(v: Value) {
    v.Int? || v.Long? || v.Dbl?
  }

  /** Number.doubleValue(), for the values that are numbers. */
  function AsReal(v: Value): real {
    match v
    case Int(i) => i as real
    case Long(l) => l as real
    case Dbl(d) => d
    case _ => 0.0
  }

  /** Object.toString(), as String.valueOf prints it. */
  function ValueText(v: Value): string {
    match v
    case Null => "null"
    case Str(s) => s
    case Int(i) => IntText(i)
    case Long(l) => IntText(l)
    case Dbl(d) => DoubleText(d)
    case Bool(b) => if b then "true" else "false"
    case Date(day) => DateText(day)
  }

  /**
   * The text of a value that is not a String is never blank and never "N/A"
   * in any case, so only Strings and null can be missing.
   */
  lemma ValueTextNotMissing(v: Value)
    requires !v.Str?
    ensures Trim(ValueText(v)) != []
    ensures !EqualsIgnoreCase(ValueText(v), "N/A")
  {
    match v
    case Null => WordsNotMissing();
    case Bool(b) => WordsNotMissing();
    case _ => PrintedNotMissing(ValueText(v));
  }

  lemma WordsNotMissing()
    ensures Trim("null") != [] && !EqualsIgnoreCase("null", "N/A")
    ensures Trim("true") != [] && !EqualsIgnoreCase("true", "N/A")
    ensures Trim("false") != [] && !EqualsIgnoreCase("false", "N/A")
  {
    assert ToLower("N/A")[2] == 'a';
    TrimIdentity("null");
    TrimIdentity("true");
    TrimIdentity("false");
    assert ToLower("null")[2] == 'l' && ToLower("true")[2] == 'u' && |ToLower("false")| == 5;
  }

  lemma PrintedNotMissing(t: string)
    requires EndsWithDigit(t)
    ensures Trim(t) != [] && !EqualsIgnoreCase(t, "N/A")
  {
    EndsWithDigitNotBlank(t);
    assert ToLower("N/A")[2] == 'a';
  }

  /** Java's class names for the value kinds, as Class.getSimpleName() gives them. */
  function ClassName(v: Value): string {
    match v
    case Null => "null"
    case Str(_) => "String"
    case Int(_) => "Integer"
    case Long(_) => "Long"
    case Dbl(_) => "Double"
    case Bool(_) => "Boolean"
    case Date(_) => "LocalDate"
  }

  /** Row by row, key by key: every row has the same keys in both datasets. */
  predicate SameShape(a: Dataset, b: Dataset) {
    |a| == |b| && forall i :: 0 <= i < |a| ==> a[i].Keys == b[i].Keys
  }

  predicate NoNulls(data: Dataset) {
    forall i, k :: 0 <= i < |data| && k in data[i] ==> data[i][k] != Null
  }

  /**
   * The result of rebuilding every row with Collectors.toMap: it throws a
   * NullPointerException as soon as a computed value is null.
   */
  function Collect(data: Dataset): (r: Result<Dataset, Error>)
    ensures r.Ok? <==> NoNulls(data)
    ensures r.Ok? ==> r.value == data
    ensures r.Err? ==> r.error == NullValue
  {
    if NoNulls(data) then Ok(data) else Err(NullValue)
  }
}
