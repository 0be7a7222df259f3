/**
 * DataProcessingService: an upload is read into raw rows according to its
 * file extension, an upload without rows is rejected, and the rows are run
 * through the cleaning pipeline and summarised in a quality report.
 */
module DataProcessing {
  import opened Wrappers
  import opened Text
  import opened Dates
  import opened Values
  import opened CellParsing
  import CsvRows
  import QualityReport
  import Validation
  import Pipeline

  /**
   * An uploaded file as the service sees it: its name, whether it has any
   * content, and the rows each reader would produce from it. The CSV reader
   * yields records of cells; the Excel and JSON readers are not part of
   * this model and contribute their rows, or their failure, directly.
   */
  datatype UploadedFile = UploadedFile(
    originalFilename: Option<string>,
    isEmpty: bool,
    csvRecords: seq<seq<string>>,
    excelRows: Result<Dataset, Error>,
    jsonRows: Result<Dataset, Error>)

  /** What processFile hands back: the cleaned rows, the report, the columns of the first row and the validation messages. */
  datatype CleanedDataResult = CleanedDataResult(
    cleanedData: Dataset,
    dataQualityReport: QualityReport.DataQualityReport,
    columns: set<string>,
    validationErrors: seq<string>)

  /** The reader a file extension selects, compared in lower case. */
  datatype Format = Csv | Xlsx | Json

  function FormatOf(extension: string): (r: Option<Format>)
    ensures r == Some(Csv) <==> ToLower(extension) == "csv"
    ensures r == Some(Xlsx) <==> ToLower(extension) == "xlsx"
    ensures r == Some(Json) <==> ToLower(extension) == "json"
  {
    var lower := ToLower(extension);
    if lower == "csv" then Some(Csv)
    else if lower == "xlsx" then Some(Xlsx)
    else if lower == "json" then Some(Json)
    else None
  }

  /**
   * The format depends on the extension only up to case ("CSV", "Csv" and
   * "csv" select the same reader), and only three- and four-letter
   * extensions select one.
   */
  lemma FormatOfIgnoresCase(a: string, b: string)
    ensures EqualsIgnoreCase(a, b) ==> FormatOf(a) == FormatOf(b)
    ensures FormatOf(a).Some? ==> |a| == 3 || |a| == 4
  {
  }

  /**
   * The raw rows of an upload: an empty upload and a missing name are
   * rejected, then the extension picks the reader; any other extension is
   * unsupported.
   */
  function ReadRaw(file: UploadedFile, parse: DateParser): Result<Dataset, Error> {
    if file.isEmpty then Err(EmptyFile)
    else if file.originalFilename.None? then Err(NoFileName)
    else
      var extension := FileExtension(file.originalFilename.value);
      match FormatOf(extension)
      case None => Err(UnsupportedFormat(extension))
      case Some(Csv) => CsvRows.ReadCsvFile(file.csvRecords, parse)
      case Some(Xlsx) => file.excelRows
      case Some(Json) => file.jsonRows
  }

  /** The cleaned rows processFile produces with these pipeline steps, or why it fails. */
  function CleanedRows(file: UploadedFile, steps: seq<Pipeline.Step>, parse: DateParser): Result<Dataset, Error> {
    match ReadRaw(file, parse)
    case Err(e) => Err(e)
    case Ok(raw) =>
      if raw == [] then Err(NoData)
      else Pipeline.Run(steps, raw, parse)
  }

  /**
   * A CSV upload fails only when it has no header line; with one, it yields
   * a row per further record, each keyed by the standardised headers. An
   * unknown extension is reported with the extension as written.
   */
  lemma ReadRawOutcome(file: UploadedFile, parse: DateParser)
    requires !file.isEmpty && file.originalFilename.Some?
    ensures var extension := FileExtension(file.originalFilename.value);
      var lower := ToLower(extension);
      (lower != "csv" && lower != "xlsx" && lower != "json" ==> ReadRaw(file, parse) == Err(UnsupportedFormat(extension)))
      && (lower == "csv" ==>
            (ReadRaw(file, parse).Err? <==> file.csvRecords == [])
            && (ReadRaw(file, parse).Ok? ==>
                  |ReadRaw(file, parse).value| == |file.csvRecords| - 1 && NoNulls(ReadRaw(file, parse).value)))
  {
    var extension := FileExtension(file.originalFilename.value);
    if ToLower(extension) == "csv" {
      CsvRows.ReadCsvFileOutcome(file.csvRecords, parse);
    }
  }

  /**
   * A successful run never has more rows than the upload, and never none:
   * the columns are read off a first row that exists.
   */
  lemma CleanedRowsSize(file: UploadedFile, steps: seq<Pipeline.Step>, parse: DateParser)
    requires CleanedRows(file, steps, parse).Ok?
    ensures ReadRaw(file, parse).Ok? && ReadRaw(file, parse).value != []
    ensures 0 < |CleanedRows(file, steps, parse).value| <= |ReadRaw(file, parse).value|
  {
    Pipeline.RunSize(steps, ReadRaw(file, parse).value, parse);
  }

  /**
   * The service, wired to the cleaning pipeline and to the validation step
   * whose messages it reports; `parse` stands for the java.time formatters.
   */
  class DataProcessingService {
    const cleaningPipeline: Pipeline.CleaningPipeline
    const dataValidationStep: Validation.DataValidationStep
    const parse: DateParser

    /** The validation step the service reads is the one the pipeline runs (one Spring singleton). */
    predicate Wired() {
      cleaningPipeline.validator == dataValidationStep
    }

    constructor(cleaningPipeline: Pipeline.CleaningPipeline, dataValidationStep: Validation.DataValidationStep, parse: DateParser)
      requires cleaningPipeline.validator == dataValidationStep
      ensures this.cleaningPipeline == cleaningPipeline && this.dataValidationStep == dataValidationStep
      ensures this.parse == parse
      ensures Wired()
    {
      this.cleaningPipeline := cleaningPipeline;
      this.dataValidationStep := dataValidationStep;
      this.parse := parse;
    }

    /**
     * cleanAndAnalyzeData: run the pipeline, report on raw against cleaned
     * rows, take the columns of the first cleaned row and the messages the
     * validation step holds afterwards. Rows in give rows out, so only an
     * empty input leaves no first row to read the columns from, which fails.
     */
    method CleanAndAnalyze(data: Dataset) returns (r: Result<CleanedDataResult, Error>)
      requires Wired()
      modifies cleaningPipeline.validator
      ensures r.Err? <==> Pipeline.Run(cleaningPipeline.steps, data, parse).Err? || data == []
      ensures r.Err? && Pipeline.Run(cleaningPipeline.steps, data, parse).Err? ==>
        r.error == Pipeline.Run(cleaningPipeline.steps, data, parse).error
      ensures r.Err? && Pipeline.Run(cleaningPipeline.steps, data, parse).Ok? ==> r.error == NoFirstRow
      ensures r.Ok? ==>
        var cleaned := Pipeline.Run(cleaningPipeline.steps, data, parse).value;
        r.value.cleanedData == cleaned
        && r.value.dataQualityReport == QualityReport.ReportOf(data, cleaned)
        && cleaned != [] && r.value.columns == cleaned[0].Keys
        && r.value.validationErrors == dataValidationStep.validationResult.errors
      ensures r.Ok? ==>
        var checked := Pipeline.LastValidated(cleaningPipeline.steps, data, parse);
        (checked.Some? ==> Validation.MessagesOf(r.value.validationErrors, checked.value, parse))
        && (checked.None? ==> r.value.validationErrors == old(dataValidationStep.validationResult.errors))
      ensures Pipeline.DataValidationStep !in cleaningPipeline.steps ==> unchanged(cleaningPipeline.validator)
    {
      var cleanedData := cleaningPipeline.Execute(data, parse);
      if cleanedData.Err? {
        return Err(cleanedData.error);
      }
      var cleaned := cleanedData.value;
      Pipeline.RunSize(cleaningPipeline.steps, data, parse);
      if cleaned == [] {
        return Err(NoFirstRow);
      }
      var report := QualityReport.GenerateReport(data, cleaned);
      var columns := cleaned[0].Keys;
      var validationErrors := dataValidationStep.validationResult.errors;
      return Ok(CleanedDataResult(cleaned, report, columns, validationErrors));
    }

    /**
     * processFile: reject an empty upload or one without a name, read the
     * rows with the reader the extension selects, reject a file without
     * rows, then clean and analyse.
     */
    method ProcessFile(file: UploadedFile) returns (r: Result<CleanedDataResult, Error>)
      requires Wired()
      modifies cleaningPipeline.validator
      ensures r.Err? <==> CleanedRows(file, cleaningPipeline.steps, parse).Err?
      ensures r.Err? ==> r.error == CleanedRows(file, cleaningPipeline.steps, parse).error
      ensures r.Ok? ==>
        var raw := ReadRaw(file, parse).value;
        var cleaned := CleanedRows(file, cleaningPipeline.steps, parse).value;
        r.value.cleanedData == cleaned
        && r.value.dataQualityReport == QualityReport.ReportOf(raw, cleaned)
        && cleaned != [] && r.value.columns == cleaned[0].Keys
        && r.value.validationErrors == dataValidationStep.validationResult.errors
      ensures r.Ok? ==>
        var checked := Pipeline.LastValidated(cleaningPipeline.steps, ReadRaw(file, parse).value, parse);
        (checked.Some? ==> Validation.MessagesOf(r.value.validationErrors, checked.value, parse))
        && (checked.None? ==> r.value.validationErrors == old(dataValidationStep.validationResult.errors))
    {
      if file.isEmpty {
        return Err(EmptyFile);
      }
      if file.originalFilename.None? {
        return Err(NoFileName);
      }
      var filename := file.originalFilename.value;
      var fileExtension := FileExtension(filename);
      var rawData: Result<Dataset, Error>;
      match FormatOf(fileExtension) {
        case None =>
          rawData := Err(UnsupportedFormat(fileExtension));
        case Some(Csv) =>
          rawData := CsvRows.ProcessCsv(file.csvRecords, CsvRows.ColumnNamer(), CsvRows.CsvCellReader(parse));
        case Some(Xlsx) =>
          rawData := file.excelRows;
        case Some(Json) =>
          rawData := file.jsonRows;
      }
      assert rawData == ReadRaw(file, parse);
      if rawData.Err? {
        return Err(rawData.error);
      }
      if rawData.value == [] {
        return Err(NoData);
      }
      r := CleanAndAnalyze(rawData.value);
    }
  }
}
