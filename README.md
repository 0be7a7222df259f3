# Data-cleaning pipeline, modelled in Dafny

This project models the row-cleaning core of a Spring service. The service
accepts an uploaded CSV, Excel or JSON file and turns it into rows, each a
map from column name to cell value. It runs the rows through a configurable
pipeline of cleaning steps, validates them, and returns the cleaned rows with
a data-quality report.

The model covers these parts:

- **Cell values.** `Values` models a cell as `Null`, text, a 32-bit
  `Integer`, a 64-bit `Long`, a `Double` (modelled as a real), a `Boolean` or
  a `LocalDate` (a day number, 1970-01-01 being day 0). A row is a
  `map<string, Value>` and a dataset is a sequence of rows.
- **Collecting a row.** `Values.Collect` models `Collectors.toMap`: it fails
  with `NullValue` when a step would put a null into a row.
- **The cleaning steps.** Each step's `process` is modelled as a function on
  datasets:
  - missing values (`MissingValues`);
  - special characters (`SpecialCharacters`);
  - categorical standardisation (`Categorical`);
  - outlier flagging (`Outliers`, with a run on a single numeric column
    worked through in `OutlierExamples`);
  - duplicate removal (`Duplicates`);
  - type inference and conversion (`TypeInference`).

  Where the Java code loops and updates maps, the model has a method with a
  loop, proved equal to that function.
- **Validation.** `Validation.DataValidationStep` and
  `ValidationResults.ValidationResult` are classes whose fields change in
  place, as in the Java code.
- **The pipeline.** `Pipeline.CleaningPipeline` builds the step registry,
  resolves the configured stage names against it, and runs the resolved
  steps in order. The validation step stores its messages in a validator
  object the pipeline shares; `Pipeline.LastValidated` names the rows the
  last validation step of a run received, whose messages the validator
  holds afterwards.
- **The service.** `DataProcessing.DataProcessingService` checks the upload
  and reads rows. For CSV it uses the cell parsing in `CellParsing` and
  `CsvRows`. It then runs the pipeline and builds the report (`QualityReport`).
  As in the Spring wiring, the validation step the service reads its
  messages from is the one the pipeline runs.

`Text`, `Numbers` and `Dates` model the parts of the Java library the code
relies on:

- `String.trim`, `toLowerCase`, `lastIndexOf`, and the two `replaceAll`
  patterns used;
- `Long.parseLong`, a decimal subset of `Double.parseDouble`, and
  `Double.toString`;
- `LocalDate` arithmetic and printing, and the Excel serial-date conversion.

Date parsing with `DateTimeFormatter` is a parameter
`parse: (DateFormat, string) -> Option<int>`. The model fixes the formatter
lists and their order, and that the first formatter to succeed wins.

## How the model resolves conflicts in the code

Where the code and its documented intent disagree, the model follows the
code:

- **Unparsable dates crash type inference.** `convertValue` turns text that
  no formatter parses into `null` in a `LocalDate` column. The `toMap` that
  follows then throws, so the whole type-inference step fails. This is
  `TypeInference.UnparsableDateFails`.
- **The Excel serial-date branch of `inferType` never fires.** Integers,
  longs and doubles return earlier. Serial dates are converted only in
  `parseLocalDate`.
- **Merging column types is order-dependent.** A column whose first valid
  value is text stays `String`, yet text seen later is ignored
  (`TypeInference.MergeNotCommutative`).
- **Most short stage names resolve to nothing.** The registry keys are the
  lower-cased class names without `Step` (`handlemissingvalues`, ...).
  Stage names are configuration, not code; the repository ships no stage
  list. Take an example configuration that names the stages by short names:
  `missingvalues`, `specialcharacters`, `typeinference`, `outlierdetection`,
  `deduplication`, `validation`. Only `typeinference` and `outlierdetection`
  match a registry key; the other four are skipped
  (`Pipeline.ShortStageNames`).
- **Ages print as doubles.** The age message prints the value through
  `double`, so an age of 200 appears as `Age 200.0`.
- **`isDouble` is a pattern match.** It tests the pattern `-?\d*\.\d+`, so
  `1e3` and `5.` are not decimal, although `Double.parseDouble` accepts
  them.
- **Results carry more fields than their records.** The service's builders
  set more fields than `CleanedDataResult` and `DataQualityReport` declare
  as record components. The model follows the builders:
  `CleanedDataResult` carries the validation errors, and the report carries
  the numeric statistics and column types.
- **Row key order is unspecified.** `HashMap` iteration order is left open.
  Results that do not depend on it are stated as maps and sets. Validation
  messages do depend on it, so `Process` returns the key order it used for
  each row as a ghost value.

## Model

| member | source | states |
|---|---|---|
| Values.ValueTextNotMissing | src/main/java/com/niyiment/samples/datacleaning/service/impl/TypeInferenceStep.java:79-83 | a value that is not text never prints as blank or as "N/A", so only text can be an invalid value |
| MissingValues.FillValue | src/main/java/com/niyiment/samples/datacleaning/service/impl/HandleMissingValuesStep.java:18-25 | null, blank text and any casing of "null" become "N/A"; every other value is kept; the result is never missing |
| MissingValues.NotAvailableNotMissing | src/main/java/com/niyiment/samples/datacleaning/service/impl/HandleMissingValuesStep.java:19-23 | the "N/A" marker is not itself a missing value, so it is left alone |
| MissingValues.HandleMissingValues | src/main/java/com/niyiment/samples/datacleaning/service/impl/HandleMissingValuesStep.java:13-28 | the step keeps the shape of the data, fills each cell, and leaves no missing value and no null behind (so its collection never fails) |
| MissingValues.OnlyMissingChanges | src/main/java/com/niyiment/samples/datacleaning/service/impl/HandleMissingValuesStep.java:19-25 | a cell changes only if it was missing, and an "N/A" cell stays "N/A" |
| MissingValues.HandleMissingValuesIdempotent | src/main/java/com/niyiment/samples/datacleaning/service/impl/HandleMissingValuesStep.java:13-28 | filling missing values twice is the same as filling them once |
| SpecialCharacters.StripSpecial | src/main/java/com/niyiment/samples/datacleaning/service/impl/RemoveSpecialCharactersStep.java:21 | removing everything but ASCII letters, digits and whitespace leaves only such characters, as a subsequence of the input |
| SpecialCharacters.StripSpecialIdentity | src/main/java/com/niyiment/samples/datacleaning/service/impl/RemoveSpecialCharactersStep.java:21 | text is left unchanged exactly when it holds no special character |
| SpecialCharacters.StripSpecialIdempotent | src/main/java/com/niyiment/samples/datacleaning/service/impl/RemoveSpecialCharactersStep.java:21 | stripping twice is stripping once |
| SpecialCharacters.CleanRowsKeepOnlyKept | src/main/java/com/niyiment/samples/datacleaning/service/impl/RemoveSpecialCharactersStep.java:19-23 | every String cell other than exactly "N/A" comes out holding only ASCII letters, digits and whitespace, a subsequence of the original; every other cell comes out unchanged |
| SpecialCharacters.RemoveSpecialCharactersOutcome | src/main/java/com/niyiment/samples/datacleaning/service/impl/RemoveSpecialCharactersStep.java:14-27 | the step fails exactly when some cell is null; otherwise it keeps the shape and cleans every cell |
| SpecialCharacters.LowerCaseSentinelStripped | src/main/java/com/niyiment/samples/datacleaning/service/impl/RemoveSpecialCharactersStep.java:20-21 | the marker test is case-sensitive: "n/a" is stripped to "na" |
| SpecialCharacters.RemoveSpecialCharactersIdempotent | src/main/java/com/niyiment/samples/datacleaning/service/impl/RemoveSpecialCharactersStep.java:14-27 | running the step on its own successful output changes nothing |
| Categorical.StandardizeNoSpace | src/main/java/com/niyiment/samples/datacleaning/service/impl/CategoricalStandardizationStep.java:35 | a standardised category holds no whitespace |
| Categorical.StandardizeTrimmed | src/main/java/com/niyiment/samples/datacleaning/service/impl/CategoricalStandardizationStep.java:35 | a standardised category has nothing to trim |
| Categorical.StandardizeIdempotent | src/main/java/com/niyiment/samples/datacleaning/service/impl/CategoricalStandardizationStep.java:35 | standardising a category twice is standardising it once |
| Categorical.Process | src/main/java/com/niyiment/samples/datacleaning/service/impl/CategoricalStandardizationStep.java:13-41 | the step with its unique-value loop computes the categorical-standardisation function |
| Categorical.CategoricalOutcome | src/main/java/com/niyiment/samples/datacleaning/service/impl/CategoricalStandardizationStep.java:13-41 | empty data is returned as is; otherwise the step fails exactly when a cell is null, and on success keeps the shape and standardises exactly the categorical columns' text |
| Categorical.SingleRowUnchanged | src/main/java/com/niyiment/samples/datacleaning/service/impl/CategoricalStandardizationStep.java:24-27 | with one row no column is categorical (1 <= 1/2 is false), so a null-free row is returned unchanged |
| Categorical.NoCategoriesNoChange | src/main/java/com/niyiment/samples/datacleaning/service/impl/CategoricalStandardizationStep.java:29-40 | with no categorical column the rewrite changes nothing |
| Categorical.CategoricalIdempotent | src/main/java/com/niyiment/samples/datacleaning/service/impl/CategoricalStandardizationStep.java:13-41 | running the step on its own successful output returns it unchanged |
| Categorical.ColumnUnchanged | src/main/java/com/niyiment/samples/datacleaning/service/impl/CategoricalStandardizationStep.java:29-40 | a non-categorical column keeps exactly its set of values |
| Categorical.StandardizeRowsClean | src/main/java/com/niyiment/samples/datacleaning/service/impl/CategoricalStandardizationStep.java:29-40 | a String in a categorical column comes out with no whitespace and nothing to trim; every other cell comes out unchanged; rewriting again with the same columns changes nothing |
| ColumnAnalysis.ColumnsSnoc | src/main/java/com/niyiment/samples/datacleaning/service/impl/CategoricalStandardizationStep.java:17-21 | adding a row adds exactly its keys to the columns |
| ColumnAnalysis.ColumnValuesSnoc | src/main/java/com/niyiment/samples/datacleaning/service/impl/CategoricalStandardizationStep.java:19-20 | adding a row adds exactly its value to each of its columns' value sets |
| ColumnAnalysis.AddRowValuesComplete | src/main/java/com/niyiment/samples/datacleaning/service/impl/CategoricalStandardizationStep.java:18-21 | folding one row's entries into the unique-value map gives the unique values of the extended data |
| ColumnAnalysis.AddRowToUniqueValues | src/main/java/com/niyiment/samples/datacleaning/service/impl/CategoricalStandardizationStep.java:18-21 | the inner `computeIfAbsent(...).add` loop, visiting a row's entries in any order, adds each entry's value to its column |
| ColumnAnalysis.CollectUniqueValues | src/main/java/com/niyiment/samples/datacleaning/service/impl/CategoricalStandardizationStep.java:16-22 | the nested loop builds exactly each column's set of distinct values |
| ColumnAnalysis.NumericSample | src/main/java/com/niyiment/samples/datacleaning/service/impl/OutlierDetectionStep.java:20-28 | a column's numeric sample has at most one entry per row |
| ColumnAnalysis.NumericSampleMembers | src/main/java/com/niyiment/samples/datacleaning/service/impl/OutlierDetectionStep.java:23-25 | a number is in a column's sample exactly when some row holds a number with that value under the column |
| ColumnAnalysis.NumericSampleEmpty | src/main/java/com/niyiment/samples/datacleaning/service/impl/OutlierDetectionStep.java:20-28 | a column's sample is empty exactly when no row holds a number under it |
| ColumnAnalysis.NumericSampleSnoc | src/main/java/com/niyiment/samples/datacleaning/service/impl/OutlierDetectionStep.java:21-27 | adding a row appends its number, if any, to the end of the column's sample, in row order |
| ColumnAnalysis.AddRowNumbersComplete | src/main/java/com/niyiment/samples/datacleaning/service/impl/OutlierDetectionStep.java:22-27 | folding one row into the numeric-column map gives the numeric columns of the extended data |
| ColumnAnalysis.AddRowToNumericColumns | src/main/java/com/niyiment/samples/datacleaning/service/impl/OutlierDetectionStep.java:22-27 | the inner loop appends each numeric entry of a row to its column's list |
| ColumnAnalysis.CollectNumericColumns | src/main/java/com/niyiment/samples/datacleaning/service/impl/OutlierDetectionStep.java:20-28 | the nested loop collects, per column that holds a number, the numbers in row order |
| Outliers.InsertFacts | src/main/java/com/niyiment/samples/datacleaning/service/impl/OutlierDetectionStep.java:33 | inserting into a sorted list keeps it sorted and adds exactly one copy of the element |
| Outliers.SortFacts | src/main/java/com/niyiment/samples/datacleaning/service/impl/OutlierDetectionStep.java:33 | the sorted sample is sorted and a permutation of the sample |
| Outliers.SortSorted | src/main/java/com/niyiment/samples/datacleaning/service/impl/OutlierDetectionStep.java:33 | an already sorted sample sorts to itself |
| Outliers.QuartileFacts | src/main/java/com/niyiment/samples/datacleaning/service/impl/OutlierDetectionStep.java:34-36 | q1 (index size/4) and q3 (index 3*size/4) are members of the sample and q1 <= q3 |
| Outliers.BoundsEncloseQuartiles | src/main/java/com/niyiment/samples/datacleaning/service/impl/OutlierDetectionStep.java:37-39 | the bounds are q1 - 1.5*IQR and q3 + 1.5*IQR: they enclose both quartiles and span four times the IQR |
| Outliers.AllBounds | src/main/java/com/niyiment/samples/datacleaning/service/impl/OutlierDetectionStep.java:30-40 | bounds are computed for exactly the numeric columns |
| Outliers.NumericColumnsNonEmpty | src/main/java/com/niyiment/samples/datacleaning/service/impl/OutlierDetectionStep.java:23-24 | every collected numeric column holds at least one number, so its quartiles exist |
| Outliers.BoundsStep | src/main/java/com/niyiment/samples/datacleaning/service/impl/OutlierDetectionStep.java:38-39 | putting one column's bounds extends the bound maps by exactly that column |
| Outliers.SampleBounds | src/main/java/com/niyiment/samples/datacleaning/service/impl/OutlierDetectionStep.java:33-39 | one column's loop body computes its lower and upper bound |
| Outliers.ComputeBounds | src/main/java/com/niyiment/samples/datacleaning/service/impl/OutlierDetectionStep.java:30-40 | the bounds loop fills both maps with every numeric column's bounds |
| Outliers.Process | src/main/java/com/niyiment/samples/datacleaning/service/impl/OutlierDetectionStep.java:17-59 | the step's loops compute the outlier-detection function |
| Outliers.OutlierOutcome | src/main/java/com/niyiment/samples/datacleaning/service/impl/OutlierDetectionStep.java:17-59 | empty data is returned as is; otherwise the step fails exactly when a cell is null, and on success keeps the shape and flags every cell against its column's bounds |
| Outliers.FlagRowsNulls | src/main/java/com/niyiment/samples/datacleaning/service/impl/OutlierDetectionStep.java:42-58 | flagging introduces no null and removes none |
| Outliers.FlagRowsChangesExactlyOutliers | src/main/java/com/niyiment/samples/datacleaning/service/impl/OutlierDetectionStep.java:42-58 | a cell changes exactly when it is a number below its column's lower bound or above its upper bound, and then becomes "OUTLIER_" followed by the number's text |
| Outliers.WithinQuartilesKept | src/main/java/com/niyiment/samples/datacleaning/service/impl/OutlierDetectionStep.java:37-51 | a number between its column's quartiles is never an outlier |
| Outliers.SingleNumberKept | src/main/java/com/niyiment/samples/datacleaning/service/impl/OutlierDetectionStep.java:34-51 | in a column with a single number that number is not an outlier |
| Outliers.WorkedExample | src/main/java/com/niyiment/samples/datacleaning/service/impl/OutlierDetectionStep.java:33-39 | for the sample 1, 2, 3, 4, 100 the quartiles are 2 and 4 and the bounds are -1 and 7 |
| OutlierExamples.NumberColumnSample | src/main/java/com/niyiment/samples/datacleaning/service/impl/OutlierDetectionStep.java:21-28 | on a dataset with one numeric column the collected sample is that column's numbers in row order |
| OutlierExamples.NumberColumnBounds | src/main/java/com/niyiment/samples/datacleaning/service/impl/OutlierDetectionStep.java:30-40 | that column gets the bounds of its sample and no other column gets bounds |
| OutlierExamples.NumberColumnOutliers | src/main/java/com/niyiment/samples/datacleaning/service/impl/OutlierDetectionStep.java:17-59 | on such a dataset the step flags exactly the numbers outside the bounds it computes itself and keeps every other row |
| OutlierExamples.WorkedExampleFlags | src/main/java/com/niyiment/samples/datacleaning/service/impl/OutlierDetectionStep.java:17-59 | on the column 1, 2, 3, 4, 100 the step turns 100 into "OUTLIER_100.0" and keeps the other four rows |
| Duplicates.NewRemoveDuplicatesStep | src/main/java/com/niyiment/samples/datacleaning/service/impl/RemoveDuplicatesStep.java:16-18 | the no-argument step has no key columns |
| Duplicates.NewRemoveDuplicatesStepWith | src/main/java/com/niyiment/samples/datacleaning/service/impl/RemoveDuplicatesStep.java:20-22 | a null key-column list means no key columns; otherwise the list is kept |
| Duplicates.SameKeyIffAgree | src/main/java/com/niyiment/samples/datacleaning/service/impl/RemoveDuplicatesStep.java:35-37 | with key columns, two rows are duplicates exactly when they read the same under every key column, an absent column reading as null, so a row lacking a key column duplicates one storing null there |
| Duplicates.DedupProperties | src/main/java/com/niyiment/samples/datacleaning/service/impl/RemoveDuplicatesStep.java:25-42 | deduplication keeps a subsequence of the rows, no two kept rows share a key, and every row's key is kept |
| Duplicates.DedupKeepsFirsts | src/main/java/com/niyiment/samples/datacleaning/service/impl/RemoveDuplicatesStep.java:38 | every kept row is the first occurrence of its key |
| Duplicates.DedupOfDistinct | src/main/java/com/niyiment/samples/datacleaning/service/impl/RemoveDuplicatesStep.java:25-42 | data whose keys are already distinct is returned unchanged |
| Duplicates.DedupIdempotent | src/main/java/com/niyiment/samples/datacleaning/service/impl/RemoveDuplicatesStep.java:25-42 | deduplicating twice is deduplicating once |
| Duplicates.DedupEmpty | src/main/java/com/niyiment/samples/datacleaning/service/impl/RemoveDuplicatesStep.java:25-42 | the result is empty exactly when the input is |
| Duplicates.DedupStep | src/main/java/com/niyiment/samples/datacleaning/service/impl/RemoveDuplicatesStep.java:34-39 | a row is appended exactly when its key is not yet among the kept rows |
| Duplicates.DedupByKey | src/main/java/com/niyiment/samples/datacleaning/service/impl/RemoveDuplicatesStep.java:33-41 | the insertion-ordered map loop with `computeIfAbsent` keeps the first row per key, which is the deduplication function |
| Duplicates.Process | src/main/java/com/niyiment/samples/datacleaning/service/impl/RemoveDuplicatesStep.java:25-42 | both branches (`distinct` on whole rows, and the key-column map) compute the deduplication function |
| TypeInference.KindOf | src/main/java/com/niyiment/samples/datacleaning/service/impl/TypeInferenceStep.java:86-90 | a value has a Java class exactly when it is not null |
| TypeInference.Merge | src/main/java/com/niyiment/samples/datacleaning/service/impl/TypeInferenceStep.java:67-77 | a column already typed as String stays String; a new String type is ignored; otherwise the wider type wins (Double over Long over Integer over Boolean over LocalDate) |
| TypeInference.MergeNotCommutative | src/main/java/com/niyiment/samples/datacleaning/service/impl/TypeInferenceStep.java:68-69 | merging String then Integer gives String, while Integer then String gives Integer |
| TypeInference.MergeSame | src/main/java/com/niyiment/samples/datacleaning/service/impl/TypeInferenceStep.java:67-77 | merging a type with itself gives that type |
| TypeInference.ValidValueIsTextTest | src/main/java/com/niyiment/samples/datacleaning/service/impl/TypeInferenceStep.java:79-83 | a value is valid exactly when it is non-null and its text is neither blank nor "N/A" in any case |
| TypeInference.InferType | src/main/java/com/niyiment/samples/datacleaning/service/impl/TypeInferenceStep.java:85-114 | a typed value gets its own class; text is classified from its trimmed form |
| TypeInference.InferText | src/main/java/com/niyiment/samples/datacleaning/service/impl/TypeInferenceStep.java:92-113 | text is a LocalDate only in a date-keyword column where a formatter parses it; Integer, Long, Double and Boolean only when the text parses as one |
| TypeInference.InferDateText | src/main/java/com/niyiment/samples/datacleaning/service/impl/TypeInferenceStep.java:94-97 | in a date-keyword column, text that some formatter parses is a LocalDate |
| TypeInference.InferPlainText | src/main/java/com/niyiment/samples/datacleaning/service/impl/TypeInferenceStep.java:106-113 | text that is no date, no long, no decimal and no boolean is a String |
| TypeInference.InferIntText | src/main/java/com/niyiment/samples/datacleaning/service/impl/TypeInferenceStep.java:106-107 | the text of a 64-bit integer is an Integer when it fits in 32 bits and a Long otherwise |
| TypeInference.InferPaddedExample | src/main/java/com/niyiment/samples/datacleaning/service/impl/TypeInferenceStep.java:92 | " 42 " is trimmed before classification and is an Integer |
| TypeInference.InferDecimalExample | src/main/java/com/niyiment/samples/datacleaning/service/impl/TypeInferenceStep.java:214-216 | "-.5" matches the decimal pattern and is a Double |
| TypeInference.InferBooleanExample | src/main/java/com/niyiment/samples/datacleaning/service/impl/TypeInferenceStep.java:218-220 | "TRUE" is a Boolean whatever its case |
| TypeInference.InferExponentExample | src/main/java/com/niyiment/samples/datacleaning/service/impl/TypeInferenceStep.java:214-216 | "1e3" does not match the decimal pattern and is a String |
| TypeInference.InferTrailingPointExample | src/main/java/com/niyiment/samples/datacleaning/service/impl/TypeInferenceStep.java:214-216 | "5." does not match the decimal pattern and is a String |
| TypeInference.ConvertValue | src/main/java/com/niyiment/samples/datacleaning/service/impl/TypeInferenceStep.java:135-155 | null stays null, a value already of the target class is kept; otherwise the result is of the target class or the trimmed text, and it is null only for a non-number that no formatter parses as a date |
| TypeInference.ConvertText | src/main/java/com/niyiment/samples/datacleaning/service/impl/TypeInferenceStep.java:140-154 | a failed conversion falls back to the trimmed text; only a date conversion can give null |
| TypeInference.IntegerOrText | src/main/java/com/niyiment/samples/datacleaning/service/impl/TypeInferenceStep.java:143 | `Integer.parseInt` gives an Integer or, on failure, the text |
| TypeInference.LongOrText | src/main/java/com/niyiment/samples/datacleaning/service/impl/TypeInferenceStep.java:144 | `Long.parseLong` gives a Long or, on failure, the text |
| TypeInference.DoubleOrText | src/main/java/com/niyiment/samples/datacleaning/service/impl/TypeInferenceStep.java:145 | `Double.parseDouble` gives a Double or, on failure, the text |
| TypeInference.ParseLocalDate | src/main/java/com/niyiment/samples/datacleaning/service/impl/TypeInferenceStep.java:157-171 | the result is a date, the text or null, and null exactly when a non-number parses with no formatter |
| TypeInference.ConvertToInferred | src/main/java/com/niyiment/samples/datacleaning/service/impl/TypeInferenceStep.java:116-155 | converting a valid value to the type inferred for that value itself always succeeds |
| TypeInference.BooleanTarget | src/main/java/com/niyiment/samples/datacleaning/service/impl/TypeInferenceStep.java:146 | conversion to Boolean is `parseBoolean`: true exactly for "true" in any case, false for anything else |
| TypeInference.ConvertTextCases | src/main/java/com/niyiment/samples/datacleaning/service/impl/TypeInferenceStep.java:143-149 | each target type uses its own parser |
| TypeInference.ConvertByText | src/main/java/com/niyiment/samples/datacleaning/service/impl/TypeInferenceStep.java:138-140 | a value not of the target class is converted from its trimmed text |
| TypeInference.LongToIntegerFallsBack | src/main/java/com/niyiment/samples/datacleaning/service/impl/TypeInferenceStep.java:140-154 | a Long beyond 32 bits in an Integer column becomes its text |
| TypeInference.FoldMergeOutcome | src/main/java/com/niyiment/samples/datacleaning/service/impl/TypeInferenceStep.java:56-59 | the merged type is String exactly when the first observed type is; otherwise it is one of the observed types and at least as wide as every non-String one |
| TypeInference.ObservedEmpty | src/main/java/com/niyiment/samples/datacleaning/service/impl/TypeInferenceStep.java:55 | a column contributes no type exactly when it holds no valid value |
| TypeInference.AddRowTypesComplete | src/main/java/com/niyiment/samples/datacleaning/service/impl/TypeInferenceStep.java:51-61 | merging one row's entries into the type map gives the types of the extended data |
| TypeInference.AddRowToColumnTypes | src/main/java/com/niyiment/samples/datacleaning/service/impl/TypeInferenceStep.java:51-61 | the inner `merge` loop folds each valid entry's inferred type into the map |
| TypeInference.InferColumnTypes | src/main/java/com/niyiment/samples/datacleaning/service/impl/TypeInferenceStep.java:47-65 | the nested loop builds exactly the column-type map |
| TypeInference.ColumnTypeOutcome | src/main/java/com/niyiment/samples/datacleaning/service/impl/TypeInferenceStep.java:47-77 | a column with a valid value is typed; it is String exactly when its first valid value is, and otherwise at least as wide as every non-String value |
| TypeInference.ValidValueTyped | src/main/java/com/niyiment/samples/datacleaning/service/impl/TypeInferenceStep.java:55-59 | every column holding a valid value receives a type |
| TypeInference.Process | src/main/java/com/niyiment/samples/datacleaning/service/impl/TypeInferenceStep.java:37-45 | the step's loops compute the type-inference function |
| TypeInference.TypeInferenceFails | src/main/java/com/niyiment/samples/datacleaning/service/impl/TypeInferenceStep.java:37-45 | empty data is returned as is; otherwise the step fails exactly when some conversion gives null |
| TypeInference.TypeInferenceOutcome | src/main/java/com/niyiment/samples/datacleaning/service/impl/TypeInferenceStep.java:37-45 | on success the shape is kept, invalid cells are untouched and every valid cell is converted to its typed column's type |
| TypeInference.DateColumnIgnoresText | src/main/java/com/niyiment/samples/datacleaning/service/impl/TypeInferenceStep.java:68-77 | a column whose first type is LocalDate and whose other types are LocalDate or String is a LocalDate column |
| TypeInference.UnparsableDateFails | src/main/java/com/niyiment/samples/datacleaning/service/impl/TypeInferenceStep.java:124-171 | text that no formatter parses, in a column typed LocalDate, makes the whole step fail |
| TypeInference.UnparsableDateText | src/main/java/com/niyiment/samples/datacleaning/service/impl/TypeInferenceStep.java:162-170 | such text converts to null |
| Dates.CivilFromDay | src/main/java/com/niyiment/samples/datacleaning/service/impl/TypeInferenceStep.java:222-229 | a day number names a valid month and day |
| Dates.CivilDayNext | src/main/java/com/niyiment/samples/datacleaning/service/impl/TypeInferenceStep.java:228 | `plusDays(1)` moves to the next day number |
| Dates.ReferenceLandmark | src/main/java/com/niyiment/samples/datacleaning/service/impl/DataValidationStep.java:15 | 2025-03-25 is day 20172 and back |
| Dates.DateText | src/main/java/com/niyiment/samples/datacleaning/service/impl/DataValidationStep.java:49 | a printed date ends in "-MM-dd" digits |
| Dates.ReferenceDateText | src/main/java/com/niyiment/samples/datacleaning/service/impl/DataValidationStep.java:15 | day 20172 prints as "2025-03-25" |
| Dates.ExcelSerialDate | src/main/java/com/niyiment/samples/datacleaning/service/impl/TypeInferenceStep.java:222-229 | a serial number gives a day in the `LocalDate` range, or nothing when it is out of range |
| Dates.ExcelSerialLandmarks | src/main/java/com/niyiment/samples/datacleaning/service/impl/TypeInferenceStep.java:222-229 | serial 1 is 1900-01-01, 59 and 60 are both 1900-02-28 (the fictitious 29 February), 61 is 1900-03-01 |
| Dates.ExcelSerialMonotone | src/main/java/com/niyiment/samples/datacleaning/service/impl/TypeInferenceStep.java:222-229 | a later serial never gives an earlier date |
| Dates.FirstParse | src/main/java/com/niyiment/samples/datacleaning/service/impl/TypeInferenceStep.java:180-187 | the formatter loop gives a date one formatter gives, and nothing exactly when every formatter fails |
| Dates.FirstParseWins | src/main/java/com/niyiment/samples/datacleaning/service/impl/TypeInferenceStep.java:180-187 | the first formatter that succeeds decides the date |
| Dates.FirstParseHasWinner | src/main/java/com/niyiment/samples/datacleaning/service/impl/TypeInferenceStep.java:180-187 | a parsed date always comes from a first successful formatter |
| Numbers.ParseSigned | src/main/java/com/niyiment/samples/datacleaning/service/impl/TypeInferenceStep.java:196-212 | signed decimal digits parse as an integer; empty text never does |
| Numbers.ParseLongRoundTrip | src/main/java/com/niyiment/samples/datacleaning/service/impl/TypeInferenceStep.java:205-212 | the text of a long parses back to it |
| Numbers.ParseIntIsNarrowLong | src/main/java/com/niyiment/samples/datacleaning/service/impl/TypeInferenceStep.java:196-203 | text is an int exactly when it is a long within 32 bits, with the same value |
| Numbers.DecimalTextParses | src/main/java/com/niyiment/samples/datacleaning/service/impl/TypeInferenceStep.java:214-216 | every text matching the decimal pattern `-?\d*\.\d+` is accepted by the double parser, which the conversion then uses |
| Numbers.ParseDoubleOfIntText | src/main/java/com/niyiment/samples/datacleaning/service/DataProcessingService.java:474-480 | the text of any integer parses as a double of the same value |
| Numbers.DoubleText | src/main/java/com/niyiment/samples/datacleaning/service/impl/OutlierDetectionStep.java:53 | a printed double ends in a digit |
| Numbers.DoubleTextOfWhole | src/main/java/com/niyiment/samples/datacleaning/service/impl/DataValidationStep.java:42 | a whole number prints with ".0", as in "Age 200.0" |
| Numbers.Trunc | src/main/java/com/niyiment/samples/datacleaning/service/impl/TypeInferenceStep.java:224 | the `(long)` cast truncates toward zero |
| Text.TrimShape | src/main/java/com/niyiment/samples/datacleaning/service/impl/HandleMissingValuesStep.java:21 | trimming removes leading and trailing characters up to U+0020 and no others |
| Text.TrimIdempotent | src/main/java/com/niyiment/samples/datacleaning/service/impl/CategoricalStandardizationStep.java:35 | trimming twice is trimming once |
| Text.TrimEmpty | src/main/java/com/niyiment/samples/datacleaning/service/impl/HandleMissingValuesStep.java:21 | text trims to empty exactly when all its characters are at most U+0020 |
| Text.CollapseShape | src/main/java/com/niyiment/samples/datacleaning/service/impl/CategoricalStandardizationStep.java:35 | after replacing runs, every matched character is the replacement and is never followed by another matched character |
| Text.CollapseIdempotent | src/main/java/com/niyiment/samples/datacleaning/service/impl/CategoricalStandardizationStep.java:35 | replacing runs twice is replacing them once |
| Text.NatTextRoundTrip | src/main/java/com/niyiment/samples/datacleaning/service/impl/DataValidationStep.java:42 | a printed number reads back as itself |
| Text.EndsWithDigitNotBlank | src/main/java/com/niyiment/samples/datacleaning/service/impl/TypeInferenceStep.java:79-83 | text ending in a digit is not blank |
| CellParsing.StandardizedShape | src/main/java/com/niyiment/samples/datacleaning/service/DataProcessingService.java:338-343 | a standardised column name holds only lower-case letters, digits and single underscores |
| CellParsing.StandardNameFixed | src/main/java/com/niyiment/samples/datacleaning/service/DataProcessingService.java:338-343 | a standardised name is fixed by each of trim, lower-casing and the run replacement |
| CellParsing.StandardizeIdempotent | src/main/java/com/niyiment/samples/datacleaning/service/DataProcessingService.java:338-343 | standardising a name twice is standardising it once (so the reader's double call is harmless) |
| CellParsing.FileExtensionHasNoDot | src/main/java/com/niyiment/samples/datacleaning/service/DataProcessingService.java:401-403 | the extension contains no dot |
| CellParsing.FileExtensionSplits | src/main/java/com/niyiment/samples/datacleaning/service/DataProcessingService.java:401-403 | the name is its stem, a dot and the extension, or the whole name when it has no dot |
| CellParsing.ParseCellOutcome | src/main/java/com/niyiment/samples/datacleaning/service/DataProcessingService.java:469-493 | empty text is null; text with a dot is a Double, other numeric text a Long; else the first formatter's date; else a Boolean for "true"/"false" in any case; else the text itself, never an Integer |
| CellParsing.ParseCellOfLong | src/main/java/com/niyiment/samples/datacleaning/service/DataProcessingService.java:474-480 | the text of a long reads back as that Long |
| CellParsing.ParseCellOfTrue | src/main/java/com/niyiment/samples/datacleaning/service/DataProcessingService.java:488-490 | "TRUE" is read as true when no formatter takes it |
| CsvRows.CsvCellReaderOutcome | src/main/java/com/niyiment/samples/datacleaning/service/DataProcessingService.java:95-96 | blank cells become "N/A", others are parsed; no cell is null |
| CsvRows.MissingCellNotAvailable | src/main/java/com/niyiment/samples/datacleaning/service/DataProcessingService.java:95-96 | a line shorter than the header reads "N/A" in the missing cells |
| CsvRows.AssembleRows | src/main/java/com/niyiment/samples/datacleaning/service/DataProcessingService.java:90-100 | one row per data line, each built the same way |
| CsvRows.AssembleRowKeys | src/main/java/com/niyiment/samples/datacleaning/service/DataProcessingService.java:94-98 | a row's keys are exactly the renamed headers |
| CsvRows.LastHeaderWins | src/main/java/com/niyiment/samples/datacleaning/service/DataProcessingService.java:97 | when two headers map to the same key, the later column's cell is kept |
| CsvRows.ExtraCellsIgnored | src/main/java/com/niyiment/samples/datacleaning/service/DataProcessingService.java:94-95 | cells beyond the headers are ignored |
| CsvRows.AssembleRowNoNulls | src/main/java/com/niyiment/samples/datacleaning/service/DataProcessingService.java:94-98 | a reader that never gives null builds rows without nulls |
| CsvRows.ReadCsvShape | src/main/java/com/niyiment/samples/datacleaning/service/DataProcessingService.java:78-106 | reading fails exactly on a file without a header line; otherwise there is one row per data line, no nulls, and every row has exactly the header keys |
| CsvRows.ReadCsvFileOutcome | src/main/java/com/niyiment/samples/datacleaning/service/DataProcessingService.java:78-106 | the same, for the standardised column names and the service's cell reader |
| CsvRows.BuildRow | src/main/java/com/niyiment/samples/datacleaning/service/DataProcessingService.java:93-98 | the per-line `put` loop builds the modelled row |
| CsvRows.ProcessCsv | src/main/java/com/niyiment/samples/datacleaning/service/DataProcessingService.java:78-106 | the reading loop builds the modelled rows, or fails on an empty file |
| QualityReport.MissingCount | src/main/java/com/niyiment/samples/datacleaning/service/DataProcessingService.java:347-350 | a column's missing count is at most the number of rows |
| QualityReport.MissingCountZero | src/main/java/com/niyiment/samples/datacleaning/service/DataProcessingService.java:349 | the count is zero exactly when no cell in the column is null or "N/A" |
| QualityReport.MissingValuesCountOutcome | src/main/java/com/niyiment/samples/datacleaning/service/DataProcessingService.java:347-350 | a column appears in the missing counts exactly when it has a missing cell, with a count between 1 and the number of rows |
| QualityReport.UniqueValuesCountOutcome | src/main/java/com/niyiment/samples/datacleaning/service/DataProcessingService.java:352-356 | every column of the cleaned data gets a distinct-value count between 1 and the number of rows |
| QualityReport.Min | src/main/java/com/niyiment/samples/datacleaning/service/DataProcessingService.java:374 | the minimum is a sample value no greater than any other |
| QualityReport.Max | src/main/java/com/niyiment/samples/datacleaning/service/DataProcessingService.java:375 | the maximum is a sample value no smaller than any other |
| QualityReport.StatsBounds | src/main/java/com/niyiment/samples/datacleaning/service/DataProcessingService.java:370-376 | min and max are sample values bounding the sample, and the mean lies between them |
| QualityReport.SumBounds | src/main/java/com/niyiment/samples/datacleaning/service/DataProcessingService.java:372 | the sum lies between n times the lower and n times the upper bound |
| QualityReport.ComputeNumericStats | src/main/java/com/niyiment/samples/datacleaning/service/DataProcessingService.java:368-378 | the loop records statistics for each non-empty numeric column |
| QualityReport.NumericStatsOutcome | src/main/java/com/niyiment/samples/datacleaning/service/DataProcessingService.java:358-378 | a column has statistics exactly when it holds a number, and every number lies within its min and max |
| QualityReport.FirstReportable | src/main/java/com/niyiment/samples/datacleaning/service/DataProcessingService.java:385 | the recorded value is neither null nor "N/A" |
| QualityReport.FirstReportableOutcome | src/main/java/com/niyiment/samples/datacleaning/service/DataProcessingService.java:380-389 | a column has no recorded value exactly when none is reportable; otherwise it is the first reportable one in row order |
| QualityReport.AddRowTypesComplete | src/main/java/com/niyiment/samples/datacleaning/service/DataProcessingService.java:382-388 | folding one row into the type map gives the types of the extended data |
| QualityReport.AddRowToColumnTypes | src/main/java/com/niyiment/samples/datacleaning/service/DataProcessingService.java:382-388 | the inner `computeIfAbsent` loop records a class only for a column not yet typed |
| QualityReport.CollectColumnTypes | src/main/java/com/niyiment/samples/datacleaning/service/DataProcessingService.java:380-389 | the nested loop builds exactly the column-type map |
| QualityReport.ColumnTypesOutcome | src/main/java/com/niyiment/samples/datacleaning/service/DataProcessingService.java:380-389 | a column is typed exactly when it holds a reportable value, and its type is the class name of the first one |
| QualityReport.GenerateReport | src/main/java/com/niyiment/samples/datacleaning/service/DataProcessingService.java:345-399 | the report holds the raw and cleaned row counts, the missing counts over the raw rows, and the unique counts, numeric statistics and column types of the cleaned rows |
| ValidationResults.ValidationResult.constructor | src/main/java/com/niyiment/samples/datacleaning/dto/ValidationResult.java:16-17 | a new result is valid and has no errors |
| ValidationResults.ValidationResult.AddError | src/main/java/com/niyiment/samples/datacleaning/dto/ValidationResult.java:19-22 | adding an error appends it and marks the result invalid |
| Validation.AgeMessage | src/main/java/com/niyiment/samples/datacleaning/service/impl/DataValidationStep.java:42 | the message starts with "Row i, column key: " |
| Validation.FutureMessage | src/main/java/com/niyiment/samples/datacleaning/service/impl/DataValidationStep.java:49-56 | the message starts with "Row i, column key: " |
| Validation.CellErrorCases | src/main/java/com/niyiment/samples/datacleaning/service/impl/DataValidationStep.java:39-61 | a number is flagged exactly when its column name contains "age" (any case) and it lies outside 0-120; a date exactly when it is after 2025-03-25; text other than "N/A" exactly when its first parsing formatter gives a future date; null and booleans never |
| Validation.AgeBoundaries | src/main/java/com/niyiment/samples/datacleaning/service/impl/DataValidationStep.java:41 | 0 and 120 are accepted, -1 and 120.5 are not, and "average" counts as an age column |
| Validation.FutureBoundary | src/main/java/com/niyiment/samples/datacleaning/service/impl/DataValidationStep.java:15-48 | the reference day is 2025-03-25; that day passes and the next is flagged |
| Validation.SentinelSkipped | src/main/java/com/niyiment/samples/datacleaning/service/impl/DataValidationStep.java:51 | "N/A" is never checked as a date |
| Validation.FirstParsing | src/main/java/com/niyiment/samples/datacleaning/service/impl/DataValidationStep.java:52-60 | the formatter loop with `break` computes the first successful parse |
| Validation.CheckCell | src/main/java/com/niyiment/samples/datacleaning/service/impl/DataValidationStep.java:36-61 | one entry's checks give exactly the specified message or none |
| Validation.RowFlags | src/main/java/com/niyiment/samples/datacleaning/service/impl/DataValidationStep.java:35-62 | each flagged cell of a row is in that row, among its keys, and fails a check |
| Validation.Flags | src/main/java/com/niyiment/samples/datacleaning/service/impl/DataValidationStep.java:33-63 | every flagged cell fails a check, and cells come in row order |
| Validation.ValidateRow | src/main/java/com/niyiment/samples/datacleaning/service/impl/DataValidationStep.java:35-62 | visiting a row's entries in some order of its keys appends that row's messages in that order, keeping the result consistent |
| Validation.DataValidationStep.constructor | src/main/java/com/niyiment/samples/datacleaning/service/impl/DataValidationStep.java:25-27 | a new step holds a fresh valid result without errors |
| Validation.DataValidationStep.Process | src/main/java/com/niyiment/samples/datacleaning/service/impl/DataValidationStep.java:29-65 | the data is returned unchanged; a fresh result holds, row by row, the messages of every failing cell |
| Validation.ErrorsAreFlagMessages | src/main/java/com/niyiment/samples/datacleaning/service/impl/DataValidationStep.java:33-63 | the error list is exactly the messages of the flagged cells, in order |
| Validation.FlagsComplete | src/main/java/com/niyiment/samples/datacleaning/service/impl/DataValidationStep.java:33-63 | every cell that fails a check is flagged |
| Validation.NoErrorsIffNothingFlagged | src/main/java/com/niyiment/samples/datacleaning/service/impl/DataValidationStep.java:29-65 | there are no errors exactly when no cell fails a check |
| Validation.KeyOrderLength | src/main/java/com/niyiment/samples/datacleaning/service/impl/DataValidationStep.java:35 | a key order visits each key of the row once |
| Validation.ErrorCount | src/main/java/com/niyiment/samples/datacleaning/service/impl/DataValidationStep.java:33-63 | there are at most as many errors as cells |
| Validation.MessagesOfMeaning | src/main/java/com/niyiment/samples/datacleaning/service/impl/DataValidationStep.java:29-65 | whatever order a row's entries were visited in, a run's messages are empty exactly when no cell fails a check, and there is at most one per cell |
| Pipeline.RegistryKeyOf | src/main/java/com/niyiment/samples/datacleaning/service/CleaningPipeline.java:31-33 | each step's registry key is its lower-cased class name without "Step" |
| Pipeline.ToMapSucceeds | src/main/java/com/niyiment/samples/datacleaning/service/CleaningPipeline.java:31-33 | building the registry succeeds exactly when keys are distinct, and its keys are then exactly the steps' keys; otherwise a repeated key is reported |
| Pipeline.ToMapLookup | src/main/java/com/niyiment/samples/datacleaning/service/CleaningPipeline.java:31-33 | each step is found under its own key |
| Pipeline.StandardRegistry | src/main/java/com/niyiment/samples/datacleaning/service/CleaningPipeline.java:29-35 | the seven steps build a registry with exactly the seven standard keys |
| Pipeline.StandardStepKeys | src/main/java/com/niyiment/samples/datacleaning/service/CleaningPipeline.java:31-33 | the seven steps' keys are the standard keys, in order |
| Pipeline.StandardKeysDistinct | src/main/java/com/niyiment/samples/datacleaning/service/CleaningPipeline.java:31-33 | the standard keys are pairwise distinct |
| Pipeline.TwoDedupStepsCollide | src/main/java/com/niyiment/samples/datacleaning/service/CleaningPipeline.java:31-33 | two duplicate-removal steps make the registry fail with a repeated key |
| Pipeline.ResolveAppend | src/main/java/com/niyiment/samples/datacleaning/service/CleaningPipeline.java:44-53 | resolving names is done name by name |
| Pipeline.ResolveOne | src/main/java/com/niyiment/samples/datacleaning/service/CleaningPipeline.java:46-52 | a name resolves to its lower-cased registry entry, or is skipped |
| Pipeline.ResolveLength | src/main/java/com/niyiment/samples/datacleaning/service/CleaningPipeline.java:44-53 | no more steps than names are resolved |
| Pipeline.ResolveAllKnown | src/main/java/com/niyiment/samples/datacleaning/service/CleaningPipeline.java:44-53 | when every name is known, the steps are exactly their entries, in order |
| Pipeline.ResolveSound | src/main/java/com/niyiment/samples/datacleaning/service/CleaningPipeline.java:44-53 | every resolved step is the entry of some configured name |
| Pipeline.ShortStageNames | src/main/java/com/niyiment/samples/datacleaning/service/CleaningPipeline.java:44-53 | with the standard registry, the six short stage names resolve to only the type-inference and outlier steps |
| Pipeline.RunCompose | src/main/java/com/niyiment/samples/datacleaning/service/CleaningPipeline.java:61-68 | running two step lists in turn is running their concatenation, stopping at the first failure |
| Pipeline.ValidationOnlyRunIsIdentity | src/main/java/com/niyiment/samples/datacleaning/service/CleaningPipeline.java:61-68 | a pipeline of validation steps returns the data unchanged |
| Pipeline.ApplyKeepsShape | src/main/java/com/niyiment/samples/datacleaning/service/CleaningPipeline.java:65 | every step but duplicate removal keeps the rows and their keys |
| Pipeline.RunKeepsShape | src/main/java/com/niyiment/samples/datacleaning/service/CleaningPipeline.java:61-68 | a pipeline without duplicate removal keeps the rows and their keys |
| Pipeline.ApplySize | src/main/java/com/niyiment/samples/datacleaning/service/CleaningPipeline.java:65 | no step adds rows, and none empties non-empty data |
| Pipeline.RunSize | src/main/java/com/niyiment/samples/datacleaning/service/CleaningPipeline.java:61-68 | a successful run never adds rows and never empties non-empty data |
| Pipeline.NoValidationStepValidatesNothing | src/main/java/com/niyiment/samples/datacleaning/service/CleaningPipeline.java:61-68 | a step list without the validation step never runs it |
| Pipeline.SuccessfulRunValidates | src/main/java/com/niyiment/samples/datacleaning/service/CleaningPipeline.java:61-68 | a successful run of a list holding the validation step runs it |
| Pipeline.ValidationLastSeesOutput | src/main/java/com/niyiment/samples/datacleaning/service/CleaningPipeline.java:61-68 | with the validation step configured last, a successful run validates exactly the rows it returns, and returns what the run without it returns |
| Pipeline.MissingThenSpecialSucceeds | src/main/java/com/niyiment/samples/datacleaning/service/CleaningPipeline.java:61-68 | filling missing values before removing special characters never fails |
| Pipeline.CleaningPipeline.constructor | src/main/java/com/niyiment/samples/datacleaning/service/CleaningPipeline.java:29-35 | the pipeline keeps its configuration and registry and starts with no steps |
| Pipeline.CleaningPipeline.Init | src/main/java/com/niyiment/samples/datacleaning/service/CleaningPipeline.java:37-58 | the steps are the configured names resolved against the registry, none when nothing is configured |
| Pipeline.CleaningPipeline.ApplyStep | src/main/java/com/niyiment/samples/datacleaning/service/CleaningPipeline.java:65 | one step computes its function; only the validation step touches the validator, leaving a fresh consistent result that holds the messages of the rows it was given |
| Pipeline.CleaningPipeline.Execute | src/main/java/com/niyiment/samples/datacleaning/service/CleaningPipeline.java:61-68 | the loop over the steps computes the pipeline run; afterwards the validator holds the messages of the rows the last validation step that ran received, even when a later step failed, and is untouched when no validation step ran |
| DataProcessing.ReadRawOutcome | src/main/java/com/niyiment/samples/datacleaning/service/DataProcessingService.java:50-73 | an unknown extension is rejected; a CSV upload fails exactly when it has no header line and otherwise gives one null-free row per data line |
| DataProcessing.FormatOfIgnoresCase | src/main/java/com/niyiment/samples/datacleaning/service/DataProcessingService.java:60-65 | extensions equal up to case select the same reader, and only three- and four-letter extensions select one |
| DataProcessing.CleanedRowsSize | src/main/java/com/niyiment/samples/datacleaning/service/DataProcessingService.java:71-75 | a successful cleaning has read non-empty rows and returns between one and that many rows |
| DataProcessing.DataProcessingService.constructor | src/main/java/com/niyiment/samples/datacleaning/service/DataProcessingService.java:35-39 | the service keeps its pipeline, validation step and date parser; the step it reads must be the one the pipeline runs |
| DataProcessing.DataProcessingService.CleanAndAnalyze | src/main/java/com/niyiment/samples/datacleaning/service/DataProcessingService.java:319-330 | the result holds the pipeline's rows, the report on raw against cleaned rows, the first cleaned row's columns and the messages of the rows the last validation step of this run received (the earlier messages when none ran), or the pipeline's failure; an empty input fails because there is no first row |
| DataProcessing.DataProcessingService.ProcessFile | src/main/java/com/niyiment/samples/datacleaning/service/DataProcessingService.java:50-76 | an empty or nameless upload, an unknown format, a read failure or a file without rows is rejected; otherwise the result is that of cleaning and analysing the rows read, its messages those of the rows the last validation step received |

## Left out

- **Excel and JSON reading.** `processExcel`, `processJSON`,
  `safeGetCellValueWithDateHandling`, `evaluateFormula` and
  `standardizeRowKeys` are not part of this model.
  - They work through Apache POI and Jackson.
  - An upload carries the rows these readers would produce, or their
    failure, as data.
- **The CSV library.** The reader is given the file's records as a sequence
  of string sequences. Quoting and line splitting by the CSV library are not
  modelled.
- **Exports and other service code.** The export methods, the cell-style
  helpers, the web controller, the exception handler, the configuration
  classes and logging write files, serve HTTP or only log, so they are not
  modelled.
- **Concurrency.** Spring injects one `DataValidationStep` into both the
  pipeline registry and the service. Two concurrent requests would share it;
  the model runs one request at a time.
- **Date parsing.** `java.time` formatter parsing is the `parse` parameter.
  Only the formatter lists, their order and first-success-wins are modelled.
- **Number parsing.**
  - `Numbers.ParseDouble` accepts plain decimals only: an optional sign,
    digits and at most one point. `Double.parseDouble` also accepts
    exponents, `NaN`, `Infinity`, hexadecimal and a trailing `d`/`f`. Such
    text becomes text or a Long in the model.
  - `Numbers.DoubleText` prints short decimals the way `Double.toString`
    does. It does not switch to scientific notation below 10^-3 or from
    10^7 upward.
- **Floating point.** Doubles are exact reals. Rounding in the sum, the mean
  and the 1.5 × IQR bounds is not modelled.
- **Unicode.** `trim`, `toLowerCase` and `\s` are modelled for ASCII:
  - lower-casing maps only A-Z;
  - `trim` removes characters up to U+0020.

  Locale-dependent case mapping is not modelled.
- **Key order.** `HashMap` iteration order is unspecified. The analysis
  loops pick keys in any order and are proved to give the same maps. The
  only place the order is visible is validation, whose per-row key order is
  returned as a ghost value.
- **Type inference.** The identifier-column pattern check in `inferType`
  only ever returns `String`, which the fallback returns anyway, so it is
  not modelled. A value's `toString` is `Values.ValueText`.
- **The no-argument `CleaningPipeline` constructor.** It leaves the
  properties and the registry null, so `init` would throw on it. Only the
  autowired constructor is modelled.
- **Lombok.** Builders, getters and the no-argument and all-argument
  constructors of `ValidationResult` are not modelled beyond the fields
  they set.
- Validation.DataValidationStep.Process: states the error list relative
  to the key order it chose for each row, because the Java code visits a
  row's entries in `HashMap` order.
- DataProcessing.DataProcessingService.CleanAndAnalyze: states the
  validation messages only up to the order of each row's entries, for the
  same reason as `Process`.
- DataProcessing.DataProcessingService.ProcessFile: states the validation
  messages only up to the order of each row's entries, for the same reason
  as `Process`.
