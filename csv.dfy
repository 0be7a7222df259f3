/**
 * The row-assembly loop of processCSV: the first record is the header
 * line, every later record becomes one row keyed by the normalised headers.
 */
module CsvRows {
  import opened Wrappers
  import opened Text
  import opened Dates
  import opened Values
  import opened CellParsing

  /** How the text of one cell becomes a value. */
  type CellReader = string -> Value

  /** The CSV cell rule: blank text becomes "N/A", anything else goes to parseCellValue. */
  function CsvCellReader(parse: DateParser): CellReader {
    s => if Trim(s) == [] then Str(NotAvailable) else ParseCellValue(s, parse)
  }

  /**
   * A cell reads as "N/A" exactly when its text is blank, and otherwise as
   * what parseCellValue makes of it, which is never null.
   */
  lemma CsvCellReaderOutcome(parse: DateParser, s: string)
    ensures Trim(s) == [] ==> CsvCellReader(parse)(s) == Str(NotAvailable)
    ensures Trim(s) != [] ==> CsvCellReader(parse)(s) == ParseCellValue(s, parse)
    ensures CsvCellReader(parse)(s) != Null
  {
    if Trim(s) != [] {
      if s == [] {
        TrimEmpty(s);
      }
      ParseCellOutcome(s, parse);
    }
  }

  /** The CSV cell rule never yields null. */
  lemma CsvCellReaderNotNull(parse: DateParser)
    ensures forall s: string :: CsvCellReader(parse)(s) != Null
  {
    forall s: string
      ensures CsvCellReader(parse)(s) != Null
    {
      CsvCellReaderOutcome(parse, s);
    }
  }

  /** Cell `i` of a line; a line shorter than the header reads the missing cells as "". */
  function CellValue(line: seq<string>, i: nat, read: CellReader): Value {
    read(if i < |line| then line[i] else [])
  }

  /** A missing cell reads as "N/A". */
  lemma MissingCellNotAvailable(line: seq<string>, i: nat, parse: DateParser)
    requires i >= |line|
    ensures CellValue(line, i, CsvCellReader(parse)) == Str(NotAvailable)
  {
    TrimEmpty([]);
  }

  /** How a header becomes a column name (standardizeColumnName in the service). */
  type Normaliser = string -> string

  /** The header line, each name normalised. */
  function CleanHeaders(headers: seq<string>, normalise: Normaliser): (r: seq<string>)
    ensures |r| == |headers|
    ensures forall i :: 0 <= i < |r| ==> r[i] == normalise(headers[i])
  {
    seq(|headers|, i requires 0 <= i < |headers| => normalise(headers[i]))
  }

  /** The row for one line: each header in turn puts its cell under its normalised name. */
  function AssembleRow(cleanedHeaders: seq<string>, line: seq<string>, normalise: Normaliser, read: CellReader): Row {
    if cleanedHeaders == [] then map[]
    else
      var n := |cleanedHeaders| - 1;
      AssembleRow(cleanedHeaders[..n], line, normalise, read)[normalise(cleanedHeaders[n]) := CellValue(line, n, read)]
  }

  /** One row per line, in order. */
  function AssembleRows(cleanedHeaders: seq<string>, lines: seq<seq<string>>, normalise: Normaliser, read: CellReader): (r: Dataset)
    ensures |r| == |lines|
    ensures forall t :: 0 <= t < |lines| ==> r[t] == AssembleRow(cleanedHeaders, lines[t], normalise, read)
  {
    if lines == [] then []
    else
      var n := |lines| - 1;
      AssembleRows(cleanedHeaders, lines[..n], normalise, read) + [AssembleRow(cleanedHeaders, lines[n], normalise, read)]
  }

  /** processCSV: no header line is an error; otherwise one row per later record, in order. */
  function ReadCsv(records: seq<seq<string>>, normalise: Normaliser, read: CellReader): Result<Dataset, Error> {
    if records == [] then Err(CsvEmpty)
    else Ok(AssembleRows(CleanHeaders(records[0], normalise), records[1..], normalise, read))
  }

  /** A row's keys are exactly the normalised headers. */
  lemma {:induction false} AssembleRowKeys(cleanedHeaders: seq<string>, line: seq<string>, normalise: Normaliser, read: CellReader)
    ensures forall k :: k in AssembleRow(cleanedHeaders, line, normalise, read) <==>
      exists i :: 0 <= i < |cleanedHeaders| && normalise(cleanedHeaders[i]) == k
  {
    if cleanedHeaders != [] {
      var n := |cleanedHeaders| - 1;
      var init := cleanedHeaders[..n];
      AssembleRowKeys(init, line, normalise, read);
      forall k | exists i :: 0 <= i < |cleanedHeaders| && normalise(cleanedHeaders[i]) == k
        ensures k in AssembleRow(cleanedHeaders, line, normalise, read)
      {
        var i :| 0 <= i < |cleanedHeaders| && normalise(cleanedHeaders[i]) == k;
        if i < n {
          assert normalise(init[i]) == k;
        }
      }
      forall k | k in AssembleRow(init, line, normalise, read)
        ensures exists i :: 0 <= i < |cleanedHeaders| && normalise(cleanedHeaders[i]) == k
      {
        var i :| 0 <= i < n && normalise(init[i]) == k;
        assert normalise(cleanedHeaders[i]) == k;
      }
    }
  }

  /** Among headers with the same normalised name, the later one's cell is kept. */
  lemma {:induction false} LastHeaderWins(cleanedHeaders: seq<string>, line: seq<string>, i: int, normalise: Normaliser, read: CellReader)
    requires 0 <= i < |cleanedHeaders|
    requires forall j :: i < j < |cleanedHeaders| ==>
      normalise(cleanedHeaders[j]) != normalise(cleanedHeaders[i])
    ensures normalise(cleanedHeaders[i]) in AssembleRow(cleanedHeaders, line, normalise, read)
    ensures AssembleRow(cleanedHeaders, line, normalise, read)[normalise(cleanedHeaders[i])] == CellValue(line, i, read)
  {
    var n := |cleanedHeaders| - 1;
    var init := cleanedHeaders[..n];
    if i < n {
      assert init[i] == cleanedHeaders[i];
      forall j | i < j < n
        ensures normalise(init[j]) != normalise(init[i])
      {
        assert init[j] == cleanedHeaders[j];
      }
      LastHeaderWins(init, line, i, normalise, read);
    }
  }

  /** Cells beyond the header count change nothing. */
  lemma {:induction false} ExtraCellsIgnored(cleanedHeaders: seq<string>, line: seq<string>, normalise: Normaliser, read: CellReader)
    requires |line| >= |cleanedHeaders|
    ensures AssembleRow(cleanedHeaders, line, normalise, read) == AssembleRow(cleanedHeaders, line[..|cleanedHeaders|], normalise, read)
  {
    if cleanedHeaders != [] {
      var n := |cleanedHeaders| - 1;
      ExtraCellsIgnored(cleanedHeaders[..n], line, normalise, read);
      assert line[..|cleanedHeaders|][..n] == line[..n];
      ExtraCellsPrefix(cleanedHeaders[..n], line, |cleanedHeaders|, normalise, read);
      assert CellValue(line, n, read) == CellValue(line[..|cleanedHeaders|], n, read);
    }
  }

  lemma {:induction false} ExtraCellsPrefix(cleanedHeaders: seq<string>, line: seq<string>, m: nat, normalise: Normaliser, read: CellReader)
    requires |cleanedHeaders| <= m <= |line|
    ensures AssembleRow(cleanedHeaders, line, normalise, read) == AssembleRow(cleanedHeaders, line[..m], normalise, read)
  {
    if cleanedHeaders != [] {
      var n := |cleanedHeaders| - 1;
      ExtraCellsPrefix(cleanedHeaders[..n], line, m, normalise, read);
      assert CellValue(line, n, read) == CellValue(line[..m], n, read);
    }
  }

  /** No value of an assembled row is null. */
  lemma {:induction false} AssembleRowNoNulls(cleanedHeaders: seq<string>, line: seq<string>, normalise: Normaliser, read: CellReader)
    requires forall s: string :: read(s) != Null
    ensures forall k :: k in AssembleRow(cleanedHeaders, line, normalise, read) ==> AssembleRow(cleanedHeaders, line, normalise, read)[k] != Null
  {
    if cleanedHeaders != [] {
      var n := |cleanedHeaders| - 1;
      AssembleRowNoNulls(cleanedHeaders[..n], line, normalise, read);
    }
  }

  /**
   * A file with a header line yields one row per later record, keyed by
   * the headers normalised twice (once for the header list, once more as
   * each cell is put), and no null anywhere.
   */
  lemma ReadCsvShape(records: seq<seq<string>>, normalise: Normaliser, read: CellReader)
    requires forall s: string :: read(s) != Null
    ensures ReadCsv(records, normalise, read).Err? <==> records == []
    ensures records != [] ==>
      var data := ReadCsv(records, normalise, read).value;
      |data| == |records| - 1
      && NoNulls(data)
      && forall j, k :: 0 <= j < |data| ==>
           (k in data[j] <==> exists i :: 0 <= i < |records[0]| && normalise(normalise(records[0][i])) == k)
  {
    if records != [] {
      var cleanedHeaders := CleanHeaders(records[0], normalise);
      var data := ReadCsv(records, normalise, read).value;
      forall j, k | 0 <= j < |data|
        ensures k in data[j] <==> exists i :: 0 <= i < |records[0]| && normalise(normalise(records[0][i])) == k
        ensures k in data[j] ==> data[j][k] != Null
      {
        AssembleRowKeys(cleanedHeaders, records[j + 1], normalise, read);
        AssembleRowNoNulls(cleanedHeaders, records[j + 1], normalise, read);
        if exists i :: 0 <= i < |records[0]| && normalise(normalise(records[0][i])) == k {
          var i :| 0 <= i < |records[0]| && normalise(normalise(records[0][i])) == k;
          assert normalise(cleanedHeaders[i]) == k;
        }
      }
    }
  }

  /** standardizeColumnName as a normaliser. */
  function ColumnNamer(): Normaliser {
    s => StandardizeColumnName(s)
  }

  /** processCSV as the service runs it: standardizeColumnName on the headers, parseCellValue on the cells. */
  function ReadCsvFile(records: seq<seq<string>>, parse: DateParser): Result<Dataset, Error> {
    ReadCsv(records, ColumnNamer(), CsvCellReader(parse))
  }

  /**
   * With standardizeColumnName, normalising twice is normalising once: the
   * columns of every row are the standardised headers, and no cell is null.
   */
  lemma ReadCsvFileOutcome(records: seq<seq<string>>, parse: DateParser)
    ensures ReadCsvFile(records, parse).Err? <==> records == []
    ensures records != [] ==>
      var data := ReadCsvFile(records, parse).value;
      |data| == |records| - 1
      && NoNulls(data)
      && forall j, k :: 0 <= j < |data| ==>
           (k in data[j] <==> exists i :: 0 <= i < |records[0]| && StandardizeColumnName(records[0][i]) == k)
  {
    CsvCellReaderNotNull(parse);
    var namer := ColumnNamer();
    ReadCsvShape(records, namer, CsvCellReader(parse));
    if records != [] {
      var data := ReadCsvFile(records, parse).value;
      forall j, k | 0 <= j < |data|
        ensures k in data[j] <==> exists i :: 0 <= i < |records[0]| && StandardizeColumnName(records[0][i]) == k
      {
        if k in data[j] {
          var i :| 0 <= i < |records[0]| && namer(namer(records[0][i])) == k;
          StandardizeIdempotent(records[0][i]);
        }
        if exists i :: 0 <= i < |records[0]| && StandardizeColumnName(records[0][i]) == k {
          var i :| 0 <= i < |records[0]| && StandardizeColumnName(records[0][i]) == k;
          StandardizeIdempotent(records[0][i]);
          assert namer(namer(records[0][i])) == k;
        }
      }
    }
  }

  /** The inner loop: one row from one line. */
  method BuildRow(cleanedHeaders: seq<string>, line: seq<string>, normalise: Normaliser, read: CellReader) returns (row: Row)
    ensures row == AssembleRow(cleanedHeaders, line, normalise, read)
  {
    row := map[];
    for i := 0 to |cleanedHeaders|
      invariant row == AssembleRow(cleanedHeaders[..i], line, normalise, read)
    {
      var value := if i < |line| then line[i] else [];
      var cellValue := read(value);
      assert cleanedHeaders[..i + 1][..i] == cleanedHeaders[..i];
      row := row[normalise(cleanedHeaders[i]) := cellValue];
    }
    assert cleanedHeaders[..|cleanedHeaders|] == cleanedHeaders;
  }

  /**
   * processCSV over the records the reader yields; the service passes
   * standardizeColumnName and parseCellValue (see ReadCsvFile).
   */
  method ProcessCsv(records: seq<seq<string>>, normalise: Normaliser, read: CellReader) returns (r: Result<Dataset, Error>)
    ensures r == ReadCsv(records, normalise, read)
  {
    if records == [] {
      return Err(CsvEmpty);
    }
    var cleanedHeaders := CleanHeaders(records[0], normalise);
    var lines := records[1..];
    var data: Dataset := [];
    for j := 0 to |lines|
      invariant data == AssembleRows(cleanedHeaders, lines[..j], normalise, read)
    {
      var row := BuildRow(cleanedHeaders, lines[j], normalise, read);
      assert lines[..j + 1][..j] == lines[..j];
      data := data + [row];
    }
    assert lines[..|lines|] == lines;
    return Ok(data);
  }
}
