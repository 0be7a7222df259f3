/**
 * DataValidationStep: the step that checks ages and dates, records one
 * message per offending cell in a fresh ValidationResult, and hands the
 * data on untouched.
 */
module Validation {
  import opened Wrappers
  import opened Text
  import opened Numbers
  import opened Dates
  import opened Values
  import opened ValidationResults

  /** The date the checks treat as today, 2025-03-25, as a day number (FutureBoundary relates the two). */
  const CurrentDate: int := 20172

  /** The formatters tried, in this order, on String values. */
  const ValidationFormatters: seq<DateFormat> := [Pattern("M/d/yyyy"), Pattern("yyyy-MM-dd"), Pattern("dd-MM-yyyy")]

  /** "Row %d, column %s: " */
  function RowPrefix(i: nat, key: string): string {
    "Row " + IntText(i) + ", column " + key + ": "
  }

  /** A prefix of a text stays a prefix when more is appended. */
  lemma PrefixOfConcat(a: string, b: string)
    ensures a <= a + b
  {
    assert (a + b)[..|a|] == a;
  }

  /** "Row %d, column %s: Age %s is out of range (0-120)", the age printed as a double. */
  function AgeMessage(i: nat, key: string, age: real): (r: string)
    ensures RowPrefix(i, key) <= r
  {
    PrefixOfConcat(RowPrefix(i, key), AgeText(age));
    RowPrefix(i, key) + AgeText(age)
  }

  function AgeText(age: real): string {
    "Age " + DoubleText(age) + " is out of range (0-120)"
  }

  /** "Row %d, column %s: Date %s is in the future", the date printed as LocalDate.toString() does. */
  function FutureMessage(i: nat, key: string, day: int): (r: string)
    ensures RowPrefix(i, key) <= r
  {
    PrefixOfConcat(RowPrefix(i, key), FutureText(day));
    RowPrefix(i, key) + FutureText(day)
  }

  function FutureText(day: int): string {
    "Date " + DateText(day) + " is in the future"
  }

  /** The age check: a column whose lowercased name contains "age", and a number outside 0..120. */
  predicate AgeOutOfRange(key: string, x: real) {
    Contains(ToLower(key), "age") && (x < 0.0 || x > 120.0)
  }

  /**
   * The message, if any, for the entry `key` of row `i`: a Number in a
   * column whose lowercased name contains "age" outside 0..120; a
   * LocalDate after the current date; a String other than "N/A" whose
   * first parsing format gives a date after the current date.
   */
  function CellError(i: nat, key: string, v: Value, parse: DateParser): Option<string> {
    if IsNumber(v) then
      var x := AsReal(v);
      if AgeOutOfRange(key, x) then Some(AgeMessage(i, key, x)) else None
    else if v.Date? then
      if v.day > CurrentDate then Some(FutureMessage(i, key, v.day)) else None
    else if v.Str? && v.s != NotAvailable then
      match FirstParse(ValidationFormatters, v.s, parse)
      case Some(day) => if day > CurrentDate then Some(FutureMessage(i, key, day)) else None
      case None => None
    else None
  }

  /**
   * When a cell gets a message: exactly these three cases, and the message
   * starts with "Row i, column key: ".
   */
  lemma CellErrorCases(i: nat, key: string, v: Value, parse: DateParser)
    ensures IsNumber(v) ==>
      (CellError(i, key, v, parse).Some? <==> AgeOutOfRange(key, AsReal(v)))
    ensures v.Date? ==> (CellError(i, key, v, parse).Some? <==> v.day > CurrentDate)
    ensures v.Str? ==>
      (CellError(i, key, v, parse).Some? <==>
        v.s != NotAvailable && FirstParse(ValidationFormatters, v.s, parse).Some?
        && FirstParse(ValidationFormatters, v.s, parse).value > CurrentDate)
    ensures v.Null? || v.Bool? ==> CellError(i, key, v, parse).None?
    ensures CellError(i, key, v, parse).Some? ==> RowPrefix(i, key) <= CellError(i, key, v, parse).value
  {
  }

  /** Ages 0 and 120 pass; -1 and 121 fail; and "average" counts as an age column. */
  lemma AgeBoundaries()
    ensures !AgeOutOfRange("age", 0.0) && !AgeOutOfRange("age", 120.0)
    ensures AgeOutOfRange("age", -1.0)
    ensures AgeOutOfRange("Age", 120.5)
    ensures AgeOutOfRange("average", 121.0)
  {
    AgeColumnNames();
  }

  /** "age", "Age" and "average" all lower-case to a text containing "age". */
  lemma AgeColumnNames()
    ensures Contains(ToLower("age"), "age")
    ensures Contains(ToLower("Age"), "age")
    ensures Contains(ToLower("average"), "age")
  {
    assert ToLower("age") == "age";
    assert "age" <= ToLower("Age") by { assert ToLower("Age") == "age"; }
    assert Contains(ToLower("average"), "age") by {
      assert ToLower("average") == "average";
      assert "average"[4..] == "age";
      assert Contains("average"[4..], "age");
      assert Contains("average"[3..], "age") && "average"[3..][1..] == "average"[4..];
      assert Contains("average"[2..], "age") && "average"[2..][1..] == "average"[3..];
      assert Contains("average"[1..], "age") && "average"[1..][1..] == "average"[2..];
      assert "average"[1..] == "average"[..][1..];
    }
  }

  /** The current date passes, the day after it does not. */
  lemma FutureBoundary(i: nat, key: string, parse: DateParser)
    ensures CurrentDate == CivilDay(2025, 3, 25)
    ensures CellError(i, key, Date(20172), parse).None?
    ensures CellError(i, key, Date(20173), parse) == Some(FutureMessage(i, key, 20173))
  {
    ReferenceLandmark();
  }

  /** The "N/A" sentinel is never parsed, but the check is case-sensitive. */
  lemma SentinelSkipped(i: nat, key: string, parse: DateParser)
    ensures CellError(i, key, Str(NotAvailable), parse).None?
  {
  }

  /**
   * The loop over the formatters: the first that parses decides, later
   * ones are not tried.
   */
  method FirstParsing(formats: seq<DateFormat>, s: string, parse: DateParser) returns (r: Option<int>)
    ensures r == FirstParse(formats, s, parse)
  {
    r := None;
    var j := 0;
    while j < |formats|
      invariant 0 <= j <= |formats|
      invariant FirstParse(formats, s, parse) == FirstParse(formats[j..], s, parse)
    {
      var attempt := parse(formats[j], s);
      if attempt.Some? {
        r := attempt;
        break;
      }
      assert formats[j..][1..] == formats[j + 1..];
      j := j + 1;
    }
  }

  /** The message, if any, that an entry gets, from its row index, key and value. */
  type CellCheck = (nat, string, Value) -> Option<string>

  /** The checks of the step, with `parse` standing for the date formatters. */
  function Checks(parse: DateParser): CellCheck {
    (i: nat, key: string, v: Value) => CellError(i, key, v, parse)
  }

  /** The checks on one entry. */
  method CheckCell(i: nat, key: string, v: Value, parse: DateParser) returns (message: Option<string>)
    ensures message == CellError(i, key, v, parse)
  {
    message := None;
    if IsNumber(v) {
      var numValue := AsReal(v);
      if Contains(ToLower(key), "age") && (numValue < 0.0 || numValue > 120.0) {
        message := Some(AgeMessage(i, key, numValue));
      }
    }
    if v.Date? {
      if v.day > CurrentDate {
        message := Some(FutureMessage(i, key, v.day));
      }
    } else if v.Str? && v.s != NotAvailable {
      var date := FirstParsing(ValidationFormatters, v.s, parse);
      if date.Some? && date.value > CurrentDate {
        message := Some(FutureMessage(i, key, date.value));
      }
    }
  }

  /** `order` lists every key of `row` once: the order the row's entry set yields them in. */
  predicate IsKeyOrder(order: seq<string>, row: Row) {
    (forall j :: 0 <= j < |order| ==> order[j] in row)
    && DistinctKeys(order)
    && (forall k :: k in row ==> k in order)
  }

  predicate DistinctKeys(order: seq<string>) {
    forall j, l :: 0 <= j < l < |order| ==> order[j] != order[l]
  }

  predicate AreKeyOrders(orders: seq<seq<string>>, data: Dataset) {
    |orders| == |data| && forall i :: 0 <= i < |data| ==> IsKeyOrder(orders[i], data[i])
  }

  /** The messages of row `i`, its entries visited in `order`. */
  function RowErrors(i: nat, row: Row, order: seq<string>, check: CellCheck): seq<string>
    requires forall j :: 0 <= j < |order| ==> order[j] in row
  {
    if order == [] then []
    else
      var k := order[|order| - 1];
      RowErrors(i, row, order[..|order| - 1], check)
        + (match check(i, k, row[k]) case Some(m) => [m] case None => [])
  }

  /** The messages of a whole run, row by row, each row's entries in its key order. */
  function Errors(data: Dataset, orders: seq<seq<string>>, check: CellCheck): seq<string>
    requires AreKeyOrders(orders, data)
  {
    if data == [] then []
    else
      var n := |data| - 1;
      assert AreKeyOrders(orders[..n], data[..n]);
      Errors(data[..n], orders[..n], check) + RowErrors(n, data[n], orders[n], check)
  }

  /** A cell: a row index and a key. */
  datatype Cell = Cell(row: nat, key: string)

  /** The cell exists and its entry gets a message. */
  predicate Flagged(data: Dataset, c: Cell, check: CellCheck) {
    c.row < |data| && c.key in data[c.row] && check(c.row, c.key, data[c.row][c.key]).Some?
  }

  /** The cells of row `i` that get a message, in key order. */
  function RowFlags(i: nat, row: Row, order: seq<string>, check: CellCheck): (r: seq<Cell>)
    requires forall j :: 0 <= j < |order| ==> order[j] in row
    ensures |r| <= |order|
    ensures forall p :: 0 <= p < |r| ==>
      r[p].row == i && r[p].key in order && check(i, r[p].key, row[r[p].key]).Some?
  {
    if order == [] then []
    else
      var k := order[|order| - 1];
      var init := order[..|order| - 1];
      RowFlags(i, row, init, check)
        + (if check(i, k, row[k]).Some? then [Cell(i, k)] else [])
  }

  /** The cells of a run that get a message: row by row, in ascending row order. */
  function Flags(data: Dataset, orders: seq<seq<string>>, check: CellCheck): (r: seq<Cell>)
    requires AreKeyOrders(orders, data)
    ensures forall p :: 0 <= p < |r| ==> Flagged(data, r[p], check)
    ensures forall p, q :: 0 <= p < q < |r| ==> r[p].row <= r[q].row
  {
    if data == [] then []
    else
      var n := |data| - 1;
      assert AreKeyOrders(orders[..n], data[..n]);
      var before := Flags(data[..n], orders[..n], check);
      assert forall p :: 0 <= p < |before| ==> before[p].row < n && data[before[p].row] == data[..n][before[p].row];
      before + RowFlags(n, data[n], orders[n], check)
  }

  /** The message of a flagged cell. */
  function MessageOf(data: Dataset, c: Cell, check: CellCheck): string
    requires Flagged(data, c, check)
  {
    check(c.row, c.key, data[c.row][c.key]).value
  }

  /** The message of each flagged cell, in order. */
  function Messages(data: Dataset, cells: seq<Cell>, check: CellCheck): (r: seq<string>)
    requires forall p :: 0 <= p < |cells| ==> Flagged(data, cells[p], check)
    ensures |r| == |cells|
  {
    seq(|cells|, p requires 0 <= p < |cells| => MessageOf(data, cells[p], check))
  }

  /** Visiting one more entry appends its message, if any. */
  lemma RowErrorsSnoc(i: nat, row: Row, order: seq<string>, key: string, check: CellCheck)
    requires forall j :: 0 <= j < |order| ==> order[j] in row
    requires key in row
    ensures RowErrors(i, row, order + [key], check)
      == RowErrors(i, row, order, check) + (match check(i, key, row[key]) case Some(m) => [m] case None => [])
  {
    var extended := order + [key];
    assert extended[..|order|] == order;
  }

  /** One more visited key appends that cell's message, if any, to what was already reported. */
  lemma RowErrorsStep(i: nat, row: Row, order: seq<string>, key: string, parse: DateParser,
                      message: Option<string>, prior: seq<string>)
      returns (emitted: seq<string>)
    requires forall j :: 0 <= j < |order| ==> order[j] in row
    requires key in row && message == CellError(i, key, row[key], parse)
    ensures emitted == if message.Some? then [message.value] else []
    ensures prior + RowErrors(i, row, order + [key], Checks(parse))
      == prior + RowErrors(i, row, order, Checks(parse)) + emitted
  {
    emitted := if message.Some? then [message.value] else [];
    RowErrorsSnoc(i, row, order, key, Checks(parse));
    var before := RowErrors(i, row, order, Checks(parse));
    assert prior + (before + emitted) == prior + before + emitted;
  }

  /** The number of entries over all rows. */
  function CellCount(data: Dataset): nat {
    if data == [] then 0 else CellCount(data[..|data| - 1]) + |data[|data| - 1]|
  }

  /**
   * The inner loop of process: visit every entry of row `i` once, in the
   * order the entry set yields them, adding each message to `result`.
   */
  method ValidateRow(i: nat, row: Row, result: ValidationResult, parse: DateParser) returns (ghost order: seq<string>)
    modifies result
    ensures IsKeyOrder(order, row)
    ensures result.errors == old(result.errors) + RowErrors(i, row, order, Checks(parse))
    ensures old(result.Valid()) ==> result.Valid()
  {
    order := [];
    var todo := row.Keys;
    while todo != {}
      invariant Visiting(order, todo, row)
      invariant result.errors == old(result.errors) + RowErrors(i, row, order, Checks(parse))
      invariant old(result.Valid()) ==> result.Valid()
      decreases |todo|
    {
      var key :| key in todo;
      var message := CheckCell(i, key, row[key], parse);
      ghost var emitted := RowErrorsStep(i, row, order, key, parse, message, old(result.errors));
      if message.Some? {
        result.AddError(message.value);
      }
      VisitNext(order, todo, row, key);
      order := order + [key];
      todo := todo - {key};
    }
    VisitedAll(order, row);
  }

  /** The loop's bookkeeping: `order` lists distinct keys of the row, and every other key is still to do. */
  predicate Visiting(order: seq<string>, todo: set<string>, row: Row) {
    todo <= row.Keys
    && (forall j :: 0 <= j < |order| ==> order[j] in row && order[j] !in todo)
    && DistinctKeys(order)
    && (forall k :: k in row ==> k in order || k in todo)
  }

  lemma VisitNext(order: seq<string>, todo: set<string>, row: Row, key: string)
    requires Visiting(order, todo, row) && key in todo
    ensures Visiting(order + [key], todo - {key}, row)
  {
  }

  lemma VisitedAll(order: seq<string>, row: Row)
    requires Visiting(order, {}, row)
    ensures IsKeyOrder(order, row)
  {
  }

  /** The step; its result object is replaced at the start of every run. */
  class DataValidationStep {
    var validationResult: ValidationResult

    constructor()
      ensures fresh(validationResult)
      ensures validationResult.isValid && validationResult.errors == []
    {
      validationResult := new ValidationResult();
    }

    /**
     * process: a new ValidationResult holding the messages of every row in
     * turn; the data is returned as given.
     */
    method Process(data: Dataset, parse: DateParser) returns (r: Dataset, ghost orders: seq<seq<string>>)
      modifies this
      ensures r == data
      ensures fresh(validationResult)
      ensures AreKeyOrders(orders, data)
      ensures validationResult.errors == Errors(data, orders, Checks(parse))
      ensures validationResult.Valid()
    {
      var result := new ValidationResult();
      validationResult := result;
      orders := [];
      for i := 0 to |data|
        invariant validationResult == result
        invariant result.Valid()
        invariant AreKeyOrders(orders, data[..i])
        invariant result.errors == Errors(data[..i], orders, Checks(parse))
      {
        ghost var order := ValidateRow(i, data[i], result, parse);
        ghost var extended := orders + [order];
        assert data[..i + 1][..i] == data[..i] && extended[..i] == orders;
        orders := extended;
      }
      assert data[..|data|] == data;
      r := data;
    }
  }

  /** Messages of a concatenation. */
  lemma MessagesAppend(data: Dataset, a: seq<Cell>, b: seq<Cell>, check: CellCheck)
    requires forall p :: 0 <= p < |a| ==> Flagged(data, a[p], check)
    requires forall p :: 0 <= p < |b| ==> Flagged(data, b[p], check)
    ensures forall p :: 0 <= p < |a + b| ==> Flagged(data, (a + b)[p], check)
    ensures Messages(data, a + b, check) == Messages(data, a, check) + Messages(data, b, check)
  {
  }

  /** A message looked up in the first rows is the one in the whole run. */
  lemma MessagesPrefix(data: Dataset, n: nat, cells: seq<Cell>, check: CellCheck)
    requires n <= |data|
    requires forall p :: 0 <= p < |cells| ==> Flagged(data[..n], cells[p], check)
    ensures forall p :: 0 <= p < |cells| ==> Flagged(data, cells[p], check)
    ensures Messages(data[..n], cells, check) == Messages(data, cells, check)
  {
    assert forall p :: 0 <= p < |cells| ==> data[..n][cells[p].row] == data[cells[p].row];
  }

  lemma {:induction false} RowErrorsAreMessages(data: Dataset, n: nat, order: seq<string>, check: CellCheck)
    requires n < |data|
    requires forall j :: 0 <= j < |order| ==> order[j] in data[n]
    ensures forall p :: 0 <= p < |RowFlags(n, data[n], order, check)| ==> Flagged(data, RowFlags(n, data[n], order, check)[p], check)
    ensures RowErrors(n, data[n], order, check) == Messages(data, RowFlags(n, data[n], order, check), check)
  {
    if order != [] {
      var k := order[|order| - 1];
      var init := order[..|order| - 1];
      RowErrorsAreMessages(data, n, init, check);
      var last := if check(n, k, data[n][k]).Some? then [Cell(n, k)] else [];
      MessagesAppend(data, RowFlags(n, data[n], init, check), last, check);
    }
  }

  /**
   * The messages of a run are, in order, the messages of the flagged
   * cells: one per cell, rows in ascending order.
   */
  lemma {:induction false} ErrorsAreFlagMessages(data: Dataset, orders: seq<seq<string>>, check: CellCheck)
    requires AreKeyOrders(orders, data)
    ensures Errors(data, orders, check) == Messages(data, Flags(data, orders, check), check)
  {
    if data != [] {
      var n := |data| - 1;
      assert AreKeyOrders(orders[..n], data[..n]);
      ErrorsAreFlagMessages(data[..n], orders[..n], check);
      var before := Flags(data[..n], orders[..n], check);
      MessagesPrefix(data, n, before, check);
      RowErrorsAreMessages(data, n, orders[n], check);
      MessagesAppend(data, before, RowFlags(n, data[n], orders[n], check), check);
    }
  }

  lemma {:induction false} RowFlagsComplete(i: nat, row: Row, order: seq<string>, k: string, check: CellCheck)
    requires forall j :: 0 <= j < |order| ==> order[j] in row
    requires k in order && check(i, k, row[k]).Some?
    ensures Cell(i, k) in RowFlags(i, row, order, check)
  {
    var init := order[..|order| - 1];
    if k != order[|order| - 1] {
      assert k in init by {
        var j :| 0 <= j < |order| && order[j] == k;
        assert init[j] == k;
      }
      RowFlagsComplete(i, row, init, k, check);
    }
  }

  /** Every entry that gets a message is among the flagged cells. */
  lemma {:induction false} FlagsComplete(data: Dataset, orders: seq<seq<string>>, c: Cell, check: CellCheck)
    requires AreKeyOrders(orders, data)
    requires Flagged(data, c, check)
    ensures c in Flags(data, orders, check)
  {
    var n := |data| - 1;
    assert AreKeyOrders(orders[..n], data[..n]);
    if c.row == n {
      RowFlagsComplete(n, data[n], orders[n], c.key, check);
    } else {
      assert data[..n][c.row] == data[c.row];
      FlagsComplete(data[..n], orders[..n], c, check);
    }
  }

  /** A run records no message exactly when no entry gets one. */
  lemma NoErrorsIffNothingFlagged(data: Dataset, orders: seq<seq<string>>, check: CellCheck)
    requires AreKeyOrders(orders, data)
    ensures Errors(data, orders, check) == [] <==> forall c: Cell :: !Flagged(data, c, check)
  {
    ErrorsAreFlagMessages(data, orders, check);
    var flags := Flags(data, orders, check);
    if flags != [] {
      assert Flagged(data, flags[0], check);
    }
    forall c: Cell | Flagged(data, c, check)
      ensures Errors(data, orders, check) != []
    {
      FlagsComplete(data, orders, c, check);
    }
  }

  lemma {:induction false} DistinctCard(order: seq<string>)
    requires DistinctKeys(order)
    ensures |set x | x in order| == |order|
  {
    if order != [] {
      var init := order[..|order| - 1];
      var last := order[|order| - 1];
      DistinctCard(init);
      assert order == init + [last];
      assert (set x | x in order) == (set x | x in init) + {last};
      assert last !in (set x | x in init);
    }
  }

  /** A key order visits each entry of the row exactly once. */
  lemma KeyOrderLength(order: seq<string>, row: Row)
    requires IsKeyOrder(order, row)
    ensures |order| == |row|
  {
    DistinctCard(order);
    assert (set x | x in order) == row.Keys;
  }

  /** At most one message per entry. */
  lemma {:induction false} ErrorCount(data: Dataset, orders: seq<seq<string>>, check: CellCheck)
    requires AreKeyOrders(orders, data)
    ensures |Errors(data, orders, check)| <= CellCount(data)
  {
    if data != [] {
      var n := |data| - 1;
      assert AreKeyOrders(orders[..n], data[..n]);
      ErrorCount(data[..n], orders[..n], check);
      KeyOrderLength(orders[n], data[n]);
      RowErrorsAreMessages(data, n, orders[n], check);
    }
  }

  /**
   * `errors` is what a validation run over `data` records: the messages of
   * every row in turn, each row's entries in some key order.
   */
  ghost predicate MessagesOf(errors: seq<string>, data: Dataset, parse: DateParser) {
    exists orders :: AreKeyOrders(orders, data) && errors == Errors(data, orders, Checks(parse))
  }

  /**
   * Whatever order the entries were visited in, the recorded messages are
   * empty exactly when no entry is flagged, and there is at most one per entry.
   */
  lemma MessagesOfMeaning(errors: seq<string>, data: Dataset, parse: DateParser)
    requires MessagesOf(errors, data, parse)
    ensures errors == [] <==> forall c: Cell :: !Flagged(data, c, Checks(parse))
    ensures |errors| <= CellCount(data)
  {
    var orders :| AreKeyOrders(orders, data) && errors == Errors(data, orders, Checks(parse));
    NoErrorsIffNothingFlagged(data, orders, Checks(parse));
    ErrorCount(data, orders, Checks(parse));
  }
}
