/**
 * TypeInferenceStep: every valid value is classified, the classes seen in a
 * column are merged into one column type (row by row, entry by entry, as
 * HashMap.merge does), and every valid value is then coerced to its
 * column's type.
 */
module TypeInference {
  import opened Wrappers
  import opened Text
  import opened Numbers
  import opened Dates
  import opened Values
  import opened ColumnAnalysis

  /** The classes a column can be given. */
  datatype JType = StringT | IntegerT | LongT | DoubleT | BooleanT | LocalDateT

  /** The configured date-column keywords; None when the property is unset. */
  datatype TypeInferenceStep = TypeInferenceStep(dateColumnKeywords: Option<seq<string>>)

  /** The formatters tried, in this order, for text that may be a date. */
  const DateFormatters: seq<DateFormat> := [
    Pattern("d/M/yyyy"), Pattern("M/d/yyyy"), Pattern("dd/MM/yyyy"), Pattern("MM/dd/yyyy"),
    Pattern("yyyy-M-d"), Pattern("yyyy-MM-dd"), Pattern("d-M-yyyy"), Pattern("MM-dd-yyyy"),
    Pattern("d.M.yyyy"), Pattern("yyyy.MM.dd"), IsoLocalDate
  ]

  const ExcelDateMin: real := 2.0
  const ExcelDateMax: real := 109573.0

  /** The class of a non-null value. */
  function KindOf(v: Value): (r: Option<JType>)
    ensures r.None? <==> v.Null?
  {
    match v
    case Null => None
    case Str(_) => Some(StringT)
    case Int(_) => Some(IntegerT)
    case Long(_) => Some(LongT)
    case Dbl(_) => Some(DoubleT)
    case Bool(_) => Some(BooleanT)
    case Date(_) => Some(LocalDateT)
  }

  /**
   * How strong a class is when two non-String classes meet in a column:
   * Double over Long over Integer over Boolean over LocalDate.
   */
  function Rank(t: JType): nat {
    match t
    case LocalDateT => 0
    case BooleanT => 1
    case IntegerT => 2
    case LongT => 3
    case DoubleT => 4
    case StringT => 5
  }

  /**
   * mergeColumnTypes(existing, new). String wins only as the existing
   * class; a new String leaves the existing class; otherwise the stronger
   * class by Rank wins.
   */
  function Merge(existing: JType, newType: JType): (r: JType)
    ensures existing == StringT ==> r == StringT
    ensures existing != StringT && newType == StringT ==> r == existing
    ensures existing != StringT && newType != StringT ==>
      r == (if Rank(existing) >= Rank(newType) then existing else newType)
  {
    if existing == StringT then StringT
    else if newType == StringT then existing
    else if existing == DoubleT || newType == DoubleT then DoubleT
    else if existing == LongT || newType == LongT then LongT
    else if existing == IntegerT || newType == IntegerT then IntegerT
    else if existing == BooleanT || newType == BooleanT then BooleanT
    else existing
  }

  /** Merging is not commutative: a String seen first sticks, a String seen later is ignored. */
  lemma MergeNotCommutative()
    ensures Merge(StringT, IntegerT) == StringT
    ensures Merge(IntegerT, StringT) == IntegerT
  {
  }

  /** Merging a class with itself gives that class. */
  lemma MergeSame(t: JType)
    ensures Merge(t, t) == t
  {
  }

  /** Null, and Strings that are blank or "N/A" in any case, are not worth inferring from. */
  predicate IsValidValue(v: Value) {
    match v
    case Null => false
    case Str(s) => Trim(s) != [] && !EqualsIgnoreCase(s, NotAvailable)
    case _ => true
  }

  /**
   * isValidValue as written tests the value's toString(): not null, not
   * blank after trimming, and not "N/A" in any case. Only Strings can fail
   * the text tests, so this is IsValidValue.
   */
  lemma ValidValueIsTextTest(v: Value)
    ensures IsValidValue(v) <==>
      v != Null && Trim(ValueText(v)) != [] && !EqualsIgnoreCase(ValueText(v), NotAvailable)
  {
    if v != Null && !v.Str? {
      ValueTextNotMissing(v);
    }
  }

  /** isLikelyDateColumn: the lowercased name contains some lowercased keyword. */
  predicate IsLikelyDateColumn(column: string, step: TypeInferenceStep) {
    step.dateColumnKeywords.Some?
    && exists i :: 0 <= i < |step.dateColumnKeywords.value|
         && Contains(ToLower(column), ToLower(step.dateColumnKeywords.value[i]))
  }

  /** isInteger: Long.parseLong accepts the text and the value fits in 32 bits. */
  predicate IsInteger(s: string) {
    ParseLong(s).Some? && MinInt32 <= ParseLong(s).value <= MaxInt32
  }

  /** isLong: Long.parseLong accepts the text. */
  predicate IsLong(s: string) {
    ParseLong(s).Some?
  }

  /** isBoolean: "true" or "false" in any case. */
  predicate IsBoolean(s: string) {
    EqualsIgnoreCase(s, "true") || EqualsIgnoreCase(s, "false")
  }

  /**
   * inferType for a non-null value: values that already have a class keep
   * it, and text is classified by InferText. The Excel-serial range check
   * that follows the date test in the source sits after the Integer, Long
   * and Double returns, so no value reaches it.
   */
  function InferType(v: Value, column: string, step: TypeInferenceStep, parse: DateParser): (r: JType)
    requires v != Null
    ensures !v.Str? ==> Some(r) == KindOf(v)
    ensures v.Str? ==> r == InferText(Trim(v.s), column, step, parse)
  {
    if v.Date? then LocalDateT
    else if v.Int? then IntegerT
    else if v.Long? then LongT
    else if v.Dbl? then DoubleT
    else if v.Bool? then BooleanT
    else InferText(Trim(v.s), column, step, parse)
  }

  /**
   * The class of a trimmed text: a date (in date columns only, when some
   * formatter parses it), an Integer, a Long, a decimal, a Boolean, and a
   * String otherwise. Each class other than String is chosen only when
   * the matching parse succeeds.
   */
  function InferText(s: string, column: string, step: TypeInferenceStep, parse: DateParser): (r: JType)
    ensures r == LocalDateT ==> IsLikelyDateColumn(column, step) && FirstParse(DateFormatters, s, parse).Some?
    ensures r == IntegerT ==> ParseInt(s).Some?
    ensures r == LongT ==> ParseLong(s).Some?
    ensures r == DoubleT ==> ParseDouble(s).Some?
    ensures r == BooleanT ==> IsBoolean(s)
  {
    if IsLikelyDateColumn(column, step) && FirstParse(DateFormatters, s, parse).Some? then LocalDateT
    else if IsInteger(s) then (ParseIntIsNarrowLong(s); IntegerT)
    else if IsLong(s) then LongT
    else if IsDecimalText(s) then (DecimalTextParses(s); DoubleT)
    else if IsBoolean(s) then BooleanT
    else StringT
  }

  /** Text in a date column that some formatter parses is a LocalDate, whatever else it looks like. */
  lemma InferDateText(s: string, column: string, step: TypeInferenceStep, parse: DateParser)
    requires IsLikelyDateColumn(column, step)
    requires exists i :: 0 <= i < |DateFormatters| && parse(DateFormatters[i], s).Some?
    ensures InferText(s, column, step, parse) == LocalDateT
  {
    var i :| 0 <= i < |DateFormatters| && parse(DateFormatters[i], s).Some?;
    assert FirstParse(DateFormatters, s, parse).Some?;
  }

  /** Text that no formatter parses and that is no number and no Boolean is a String, in any column. */
  lemma InferPlainText(s: string, column: string, step: TypeInferenceStep, parse: DateParser)
    requires FirstParse(DateFormatters, s, parse).None?
    requires !IsLong(s) && !IsDecimalText(s) && !IsBoolean(s)
    ensures InferText(s, column, step, parse) == StringT
  {
  }

  /** Printed integers outside date columns: Integer within 32 bits, Long beyond. */
  lemma InferIntText(n: Int64, column: string, step: TypeInferenceStep, parse: DateParser)
    requires !IsLikelyDateColumn(column, step)
    ensures InferText(IntText(n), column, step, parse) == if MinInt32 <= n <= MaxInt32 then IntegerT else LongT
  {
    ParseLongRoundTrip(n);
  }

  /** Surrounding blanks are trimmed before classification. */
  lemma InferPaddedExample(column: string, step: TypeInferenceStep, parse: DateParser)
    requires !IsLikelyDateColumn(column, step)
    ensures InferType(Str(" 42 "), column, step, parse) == IntegerT
  {
    TrimPadded();
    FortyTwoText();
    InferIntText(42, column, step, parse);
  }

  lemma TrimPadded()
    ensures Trim(" 42 ") == "42"
  {
    assert " 42 "[1..] == "42 " && "42 "[..2] == "42";
    assert TrimStart("42 ") == "42 ";
    assert TrimEnd("42") == "42";
  }

  lemma FortyTwoText()
    ensures IntText(42) == "42"
  {
    assert NatText(42) == NatText(4) + [DigitChar(2)];
  }

  /** "-.5" matches `-?\d*\.\d+` and is a Double. */
  lemma InferDecimalExample(column: string, step: TypeInferenceStep, parse: DateParser)
    requires !IsLikelyDateColumn(column, step)
    ensures InferText("-.5", column, step, parse) == DoubleT
  {
    assert !AllDigits("-.5"[1..]) by { assert !IsAsciiDigit("-.5"[1]); }
    assert LastIndexOf(".5", '.') == 0;
  }

  /** "TRUE" is a Boolean. */
  lemma InferBooleanExample(column: string, step: TypeInferenceStep, parse: DateParser)
    requires !IsLikelyDateColumn(column, step)
    ensures InferText("TRUE", column, step, parse) == BooleanT
  {
    assert !AllDigits("TRUE") by { assert !IsAsciiDigit("TRUE"[0]); }
    assert LastIndexOf("TRUE", '.') == -1;
    assert ToLower("TRUE") == "true";
  }

  /** "1e3" does not match `-?\d*\.\d+`: it stays a String. */
  lemma InferExponentExample(column: string, step: TypeInferenceStep, parse: DateParser)
    requires !IsLikelyDateColumn(column, step)
    ensures InferText("1e3", column, step, parse) == StringT
  {
    assert !AllDigits("1e3") by { assert !IsAsciiDigit("1e3"[1]); }
    assert ParseLong("1e3").None?;
    assert LastIndexOf("1e3", '.') == -1;
    assert |ToLower("1e3")| == 3;
  }

  /** "5." has no digit after the point: it stays a String. */
  lemma InferTrailingPointExample(column: string, step: TypeInferenceStep, parse: DateParser)
    requires !IsLikelyDateColumn(column, step)
    ensures InferText("5.", column, step, parse) == StringT
  {
    assert !AllDigits("5.") by { assert !IsAsciiDigit("5."[1]); }
    assert ParseLong("5.").None?;
    assert LastIndexOf("5.", '.') == 1;
    assert !IsDecimalText("5.");
    assert |ToLower("5.")| == 2;
  }

  /** `targetType.isInstance(value)` */
  predicate IsInstance(v: Value, t: JType) {
    KindOf(v) == Some(t)
  }

  /**
   * convertValue: null stays null and a value of the target class stays as
   * it is. Otherwise the trimmed text is parsed as the target class; a
   * failed number parse, and a Number whose serial date falls outside
   * LocalDate's range, give the trimmed text. A Boolean target gives true
   * exactly for "true" in any case. A text that no date formatter parses
   * gives null.
   */
  function ConvertValue(v: Value, t: JType, parse: DateParser): (r: Value)
    ensures v == Null ==> r == Null
    ensures IsInstance(v, t) ==> r == v
    ensures r == Null ==> v == Null || (t == LocalDateT && !IsNumber(v))
    ensures r != Null ==> IsInstance(r, t) || r == Str(Trim(ValueText(v)))
  {
    if v == Null then Null
    else if IsInstance(v, t) then v
    else ConvertText(v, Trim(ValueText(v)), t, parse)
  }

  /** The parse of the trimmed text `s` of `v` that the target class calls for. */
  function ConvertText(v: Value, s: string, t: JType, parse: DateParser): (r: Value)
    ensures r == Null ==> t == LocalDateT && !IsNumber(v)
    ensures r != Null ==> IsInstance(r, t) || r == Str(s)
  {
    match t
    case IntegerT => IntegerOrText(s)
    case LongT => LongOrText(s)
    case DoubleT => DoubleOrText(s)
    case BooleanT => Bool(EqualsIgnoreCase(s, "true"))
    case LocalDateT => ParseLocalDate(v, s, parse)
    case StringT => Str(s)
  }

  /** Integer.parseInt, or the text itself where it throws. */
  function IntegerOrText(s: string): (r: Value)
    ensures r.Int? || r == Str(s)
  {
    match ParseInt(s)
    case Some(n) => Int(n)
    case None => Str(s)
  }

  /** Long.parseLong, or the text itself where it throws. */
  function LongOrText(s: string): (r: Value)
    ensures r.Long? || r == Str(s)
  {
    match ParseLong(s)
    case Some(n) => Long(n)
    case None => Str(s)
  }

  /** Double.parseDouble, or the text itself where it throws. */
  function DoubleOrText(s: string): (r: Value)
    ensures r.Dbl? || r == Str(s)
  {
    match ParseDouble(s)
    case Some(x) => Dbl(x)
    case None => Str(s)
  }

  /**
   * parseLocalDate: a Number goes through the Excel serial conversion (the
   * trimmed text where plusDays throws), anything else through the
   * formatters, with null where none parses.
   */
  function ParseLocalDate(v: Value, s: string, parse: DateParser): (r: Value)
    ensures r.Date? || r == Null || r == Str(s)
    ensures r == Null <==> !IsNumber(v) && FirstParse(DateFormatters, s, parse).None?
  {
    if IsNumber(v) then
      match ExcelSerialDate(AsReal(v))
      case Some(day) => Date(day)
      case None => Str(s)
    else
      match FirstParse(DateFormatters, s, parse)
      case Some(day) => Date(day)
      case None => Null
  }

  /**
   * Converting a valid value to the class it inferred on its own always
   * yields a value of that class: inference accepts a text only when the
   * matching parse succeeds.
   */
  lemma ConvertToInferred(v: Value, column: string, step: TypeInferenceStep, parse: DateParser)
    requires IsValidValue(v)
    ensures IsInstance(ConvertValue(v, InferType(v, column, step, parse), parse), InferType(v, column, step, parse))
  {
    if v.Str? {
      var s := Trim(v.s);
      var t := InferText(s, column, step, parse);
      assert ValueText(v) == v.s;
      if t != StringT {
        ConvertByText(v, t, parse);
        ConvertTextInferred(v, s, t, column, step, parse);
      }
    }
  }

  /** The parse that inference relied on succeeds again when converting. */
  lemma ConvertTextInferred(v: Value, s: string, t: JType, column: string, step: TypeInferenceStep, parse: DateParser)
    requires v.Str? && t == InferText(s, column, step, parse)
    ensures IsInstance(ConvertText(v, s, t, parse), t)
  {
    match t
    case IntegerT =>
    case LongT =>
    case DoubleT =>
    case BooleanT =>
    case LocalDateT =>
    case StringT =>
  }

  /** A Boolean target turns every text other than "true" (in any case) into false. */
  lemma BooleanTarget(v: Value, parse: DateParser)
    requires v != Null && !v.Bool?
    ensures ConvertValue(v, BooleanT, parse) == Bool(EqualsIgnoreCase(Trim(ValueText(v)), "true"))
  {
    ConvertByText(v, BooleanT, parse);
    ConvertTextCases(v, Trim(ValueText(v)), BooleanT, parse);
  }

  /** ConvertText, one target class at a time. */
  lemma ConvertTextCases(v: Value, s: string, t: JType, parse: DateParser)
    ensures t == IntegerT ==> ConvertText(v, s, t, parse) == IntegerOrText(s)
    ensures t == BooleanT ==> ConvertText(v, s, t, parse) == Bool(EqualsIgnoreCase(s, "true"))
    ensures t == LocalDateT ==> ConvertText(v, s, t, parse) == ParseLocalDate(v, s, parse)
  {
    match t
    case IntegerT =>
    case LongT =>
    case DoubleT =>
    case BooleanT =>
    case LocalDateT =>
    case StringT =>
  }

  /** A non-null value that is not already of the target class is converted through its trimmed text. */
  lemma ConvertByText(v: Value, t: JType, parse: DateParser)
    requires v != Null && !IsInstance(v, t)
    ensures ConvertValue(v, t, parse) == ConvertText(v, Trim(ValueText(v)), t, parse)
  {
  }

  /** A number that does not fit the target class falls back to its text. */
  lemma LongToIntegerFallsBack(n: Int64)
    requires n > MaxInt32
    ensures ConvertValue(Long(n), IntegerT, (f: DateFormat, s: string) => None) == Str(IntText(n))
  {
    var parse: DateParser := (f: DateFormat, s: string) => None;
    var s := IntText(n);
    ConvertByText(Long(n), IntegerT, parse);
    assert ValueText(Long(n)) == s;
    ParseLongRoundTrip(n);
    TrimIdentity(s);
    EndsWithDigitNotBlank(s);
    if s != [] && IsControlOrSpace(s[0]) {
      assert false;
    }
    assert Trim(s) == s;
    ConvertTextCases(Long(n), s, IntegerT, parse);
    assert ParseInt(s).None?;
  }

  /** A classification of a cell value given its column name, as inferType makes it. */
  type Classifier = (Value, string) -> JType

  /** inferType with this step's configuration and date formatters. */
  function InferWith(step: TypeInferenceStep, parse: DateParser): Classifier {
    (v: Value, column: string) => if v == Null then StringT else InferType(v, column, step, parse)
  }

  /** The classes inferred for the valid values under `k`, in row order. */
  function Observed(data: Dataset, k: string, infer: Classifier): (r: seq<JType>)
    ensures |r| <= |data|
  {
    if data == [] then []
    else
      var last := data[|data| - 1];
      Observed(data[..|data| - 1], k, infer)
        + (if k in last && IsValidValue(last[k]) then [infer(last[k], k)] else [])
  }

  /** A column's class: its observed classes merged left to right. */
  function FoldMerge(ts: seq<JType>): JType
    requires ts != []
  {
    if |ts| == 1 then ts[0] else Merge(FoldMerge(ts[..|ts| - 1]), ts[|ts| - 1])
  }

  /**
   * A column is String exactly when its first observed class is String;
   * otherwise its class is the strongest non-String class observed.
   */
  lemma {:induction false} FoldMergeOutcome(ts: seq<JType>)
    requires ts != []
    ensures FoldMerge(ts) == StringT <==> ts[0] == StringT
    ensures ts[0] != StringT ==> FoldMerge(ts) in ts
    ensures ts[0] != StringT ==>
      forall i :: 0 <= i < |ts| && ts[i] != StringT ==> Rank(ts[i]) <= Rank(FoldMerge(ts))
  {
    if |ts| > 1 {
      var init := ts[..|ts| - 1];
      FoldMergeOutcome(init);
      assert init[0] == ts[0];
      if ts[0] != StringT {
        var f := FoldMerge(init);
        forall i | 0 <= i < |ts| && ts[i] != StringT
          ensures Rank(ts[i]) <= Rank(FoldMerge(ts))
        {
          if i < |init| {
            assert ts[i] == init[i];
          }
        }
        assert f in init;
      }
    }
  }

  /** The column types inferColumnTypes computes: one entry per column with a valid value. */
  function ColumnTypes(data: Dataset, infer: Classifier): map<string, JType> {
    map k | k in Columns(data) && Observed(data, k, infer) != [] :: FoldMerge(Observed(data, k, infer))
  }

  /** `map.merge(k, t, mergeColumnTypes)` */
  function MergeInto(m: map<string, JType>, k: string, t: JType): map<string, JType> {
    m[k := if k in m then Merge(m[k], t) else t]
  }

  /** The effect of the inner loop after it has visited the keys `done` of `row`. */
  function AddRowTypes(m: map<string, JType>, row: Row, done: set<string>, infer: Classifier): map<string, JType> {
    map k | k in m.Keys + (set j | j in done && j in row && IsValidValue(row[j])) ::
      if k in done && k in row && IsValidValue(row[k]) then
        var t := infer(row[k], k);
        if k in m then Merge(m[k], t) else t
      else m[k]
  }

  lemma ObservedSnoc(data: Dataset, row: Row, k: string, infer: Classifier)
    ensures Observed(data + [row], k, infer)
      == Observed(data, k, infer)
        + (if k in row && IsValidValue(row[k]) then [infer(row[k], k)] else [])
  {
    var d := data + [row];
    assert d[..|d| - 1] == data;
  }

  /** A column has no observed class exactly when it holds no valid value. */
  lemma {:induction false} ObservedEmpty(data: Dataset, k: string, infer: Classifier)
    ensures Observed(data, k, infer) == [] <==>
      forall i :: 0 <= i < |data| && k in data[i] ==> !IsValidValue(data[i][k])
  {
    if data != [] {
      var init := data[..|data| - 1];
      ObservedEmpty(init, k, infer);
      forall i | 0 <= i < |init|
        ensures init[i] == data[i]
      {
      }
    }
  }

  lemma ObservedOutside(data: Dataset, k: string, infer: Classifier)
    requires k !in ColumnTypes(data, infer)
    ensures Observed(data, k, infer) == []
  {
    if k !in Columns(data) {
      ObservedEmpty(data, k, infer);
    }
  }

  lemma AddRowTypesKey(data: Dataset, row: Row, k: string, infer: Classifier)
    ensures var lhs := AddRowTypes(ColumnTypes(data, infer), row, row.Keys, infer);
      var rhs := ColumnTypes(data + [row], infer);
      (k in lhs <==> k in rhs) && (k in lhs ==> lhs[k] == rhs[k])
  {
    var m := ColumnTypes(data, infer);
    var lhs := AddRowTypes(m, row, row.Keys, infer);
    if k in row && IsValidValue(row[k]) {
      ObservedExtended(data, row, k, infer);
      assert k in lhs;
    } else {
      ObservedUnchanged(data, row, k, infer);
    }
  }

  /** A row without a valid value under `k` leaves that column's class alone. */
  lemma ObservedUnchanged(data: Dataset, row: Row, k: string, infer: Classifier)
    requires !(k in row && IsValidValue(row[k]))
    ensures k in ColumnTypes(data + [row], infer) <==> k in ColumnTypes(data, infer)
    ensures k in ColumnTypes(data, infer) ==> ColumnTypes(data + [row], infer)[k] == ColumnTypes(data, infer)[k]
  {
    ObservedSnoc(data, row, k, infer);
    var ts := Observed(data, k, infer);
    assert Observed(data + [row], k, infer) == ts;
    if k in ColumnTypes(data, infer) {
      ColumnsSnoc(data, row);
      assert k in Columns(data + [row]);
    } else {
      ObservedOutside(data, k, infer);
    }
  }

  /** The class a row's valid value adds to a column. */
  lemma ObservedExtended(data: Dataset, row: Row, k: string, infer: Classifier)
    requires k in row && IsValidValue(row[k])
    ensures k in ColumnTypes(data + [row], infer)
    ensures ColumnTypes(data + [row], infer)[k]
      == var t := infer(row[k], k);
         if k in ColumnTypes(data, infer) then Merge(ColumnTypes(data, infer)[k], t) else t
  {
    var ts := Observed(data, k, infer);
    var t := infer(row[k], k);
    var ts' := ts + [t];
    ObservedSnoc(data, row, k, infer);
    assert Observed(data + [row], k, infer) == ts';
    ColumnTypesAt(data, k, infer);
    ColumnTypesAt(data + [row], k, infer);
    assert ts'[..|ts'| - 1] == ts;
  }

  /** A column is typed exactly when it has an observed class, and then by their merge. */
  lemma ColumnTypesAt(data: Dataset, k: string, infer: Classifier)
    ensures k in ColumnTypes(data, infer) <==> Observed(data, k, infer) != []
    ensures k in ColumnTypes(data, infer) ==> ColumnTypes(data, infer)[k] == FoldMerge(Observed(data, k, infer))
  {
    if k !in Columns(data) {
      ObservedEmpty(data, k, infer);
    }
  }

  /** Visiting every key of the next row extends the inference by that row. */
  lemma AddRowTypesComplete(data: Dataset, row: Row, infer: Classifier)
    ensures AddRowTypes(ColumnTypes(data, infer), row, row.Keys, infer) == ColumnTypes(data + [row], infer)
  {
    var lhs := AddRowTypes(ColumnTypes(data, infer), row, row.Keys, infer);
    var rhs := ColumnTypes(data + [row], infer);
    forall k
      ensures k in lhs <==> k in rhs
      ensures k in lhs ==> lhs[k] == rhs[k]
    {
      AddRowTypesKey(data, row, k, infer);
    }
  }

  lemma AddRowTypesNone(m: map<string, JType>, row: Row, infer: Classifier)
    ensures AddRowTypes(m, row, {}, infer) == m
  {
    var a := AddRowTypes(m, row, {}, infer);
    forall j
      ensures j in a <==> j in m
      ensures j in a ==> a[j] == m[j]
    {
    }
  }

  /** One more key visited by the inner loop. */
  lemma AddRowTypesStep(m: map<string, JType>, row: Row, done: set<string>, k: string, infer: Classifier)
    requires k in row && k !in done
    ensures var a := AddRowTypes(m, row, done, infer);
      (if IsValidValue(row[k]) then MergeInto(a, k, infer(row[k], k)) else a)
        == AddRowTypes(m, row, done + {k}, infer)
  {
    var a := AddRowTypes(m, row, done, infer);
    var b := AddRowTypes(m, row, done + {k}, infer);
    var c := if IsValidValue(row[k]) then MergeInto(a, k, infer(row[k], k)) else a;
    forall j
      ensures j in c <==> j in b
      ensures j in c ==> c[j] == b[j]
    {
    }
  }

  /** The inner loop of inferColumnTypes: each valid entry of one row merged into the map. */
  method AddRowToColumnTypes(m0: map<string, JType>, row: Row, infer: Classifier)
    returns (m: map<string, JType>)
    ensures m == AddRowTypes(m0, row, row.Keys, infer)
  {
    m := m0;
    var todo := row.Keys;
    ghost var done: set<string> := {};
    AddRowTypesNone(m0, row, infer);
    while todo != {}
      invariant todo <= row.Keys && done == row.Keys - todo
      invariant m == AddRowTypes(m0, row, done, infer)
      decreases |todo|
    {
      var k :| k in todo;
      AddRowTypesStep(m0, row, done, k, infer);
      if IsValidValue(row[k]) {
        m := MergeInto(m, k, infer(row[k], k));
      }
      todo := todo - {k};
      done := done + {k};
    }
  }

  /** inferColumnTypes: every row's valid entries merged into the column types. */
  method InferColumnTypes(data: Dataset, infer: Classifier)
    returns (m: map<string, JType>)
    ensures m == ColumnTypes(data, infer)
  {
    m := map[];
    assert ColumnTypes(data[..0], infer) == map[];
    for i := 0 to |data|
      invariant m == ColumnTypes(data[..i], infer)
    {
      m := AddRowToColumnTypes(m, data[i], infer);
      AddRowTypesComplete(data[..i], data[i], infer);
      assert data[..i + 1] == data[..i] + [data[i]];
    }
    assert data[..|data|] == data;
  }

  /** The row index of the first valid value under `k`. */
  predicate FirstValidAt(data: Dataset, k: string, i: int) {
    0 <= i < |data| && k in data[i] && IsValidValue(data[i][k])
    && forall j :: 0 <= j < i && k in data[j] ==> !IsValidValue(data[j][k])
  }

  /** The first observed class is the class of the first valid value. */
  lemma {:induction false} ObservedFirst(data: Dataset, k: string, i: int, infer: Classifier)
    requires FirstValidAt(data, k, i)
    ensures Observed(data, k, infer) != []
    ensures Observed(data, k, infer)[0] == infer(data[i][k], k)
  {
    var init := data[..|data| - 1];
    if i < |init| {
      assert FirstValidAt(init, k, i);
      ObservedFirst(init, k, i, infer);
    } else {
      ObservedEmpty(init, k, infer);
    }
  }

  /**
   * A column's inferred class is String exactly when its first valid value
   * (in row order) infers String; otherwise it is the strongest class
   * inferred for any of its valid values.
   */
  lemma ColumnTypeOutcome(data: Dataset, k: string, i: int, infer: Classifier)
    requires FirstValidAt(data, k, i)
    ensures k in ColumnTypes(data, infer)
    ensures ColumnTypes(data, infer)[k] == StringT <==> infer(data[i][k], k) == StringT
    ensures infer(data[i][k], k) != StringT ==>
      forall j :: 0 <= j < |data| && k in data[j] && IsValidValue(data[j][k])
        && infer(data[j][k], k) != StringT
        ==> Rank(infer(data[j][k], k)) <= Rank(ColumnTypes(data, infer)[k])
  {
    ObservedFirst(data, k, i, infer);
    var ts := Observed(data, k, infer);
    FoldMergeOutcome(ts);
    assert k in Columns(data) by { assert k in data[i]; }
    forall j | 0 <= j < |data| && k in data[j] && IsValidValue(data[j][k])
      ensures infer(data[j][k], k) in ts
    {
      ObservedHas(data, k, j, infer);
    }
  }

  /** Every valid value's class is among its column's observed classes. */
  lemma {:induction false} ObservedHas(data: Dataset, k: string, j: int, infer: Classifier)
    requires 0 <= j < |data| && k in data[j] && IsValidValue(data[j][k])
    ensures infer(data[j][k], k) in Observed(data, k, infer)
  {
    var init := data[..|data| - 1];
    if j < |init| {
      assert init[j] == data[j];
      ObservedHas(init, k, j, infer);
    }
  }

  /** convertRowToInferredTypes for one entry: invalid values stay, the rest take the column's class (String by default). */
  function ConvertEntry(v: Value, k: string, types: map<string, JType>, parse: DateParser): Value {
    if !IsValidValue(v) then v
    else ConvertValue(v, if k in types then types[k] else StringT, parse)
  }

  function ConvertRows(data: Dataset, types: map<string, JType>, parse: DateParser): (r: Dataset)
    ensures SameShape(data, r)
    ensures forall i, k :: 0 <= i < |r| && k in r[i] ==> r[i][k] == ConvertEntry(data[i][k], k, types, parse)
  {
    seq(|data|, i requires 0 <= i < |data| =>
      map k | k in data[i] :: ConvertEntry(data[i][k], k, types, parse))
  }

  /** TypeInferenceStep.process */
  function TypeInferenceOf(data: Dataset, step: TypeInferenceStep, parse: DateParser): Result<Dataset, Error> {
    if data == [] then Ok(data)
    else Collect(ConvertRows(data, ColumnTypes(data, InferWith(step, parse)), parse))
  }

  /** TypeInferenceStep.process, with the inference loops. */
  method Process(data: Dataset, step: TypeInferenceStep, parse: DateParser) returns (r: Result<Dataset, Error>)
    ensures r == TypeInferenceOf(data, step, parse)
  {
    if data == [] {
      return Ok(data);
    }
    var columnTypes := InferColumnTypes(data, InferWith(step, parse));
    r := Collect(ConvertRows(data, columnTypes, parse));
  }

  /**
   * An empty dataset comes back as it is; otherwise the step fails exactly
   * when some coerced value is null.
   */
  lemma TypeInferenceFails(data: Dataset, step: TypeInferenceStep, parse: DateParser)
    ensures data == [] ==> TypeInferenceOf(data, step, parse) == Ok(data)
    ensures data != [] ==>
      var types := ColumnTypes(data, InferWith(step, parse));
      (TypeInferenceOf(data, step, parse).Err? <==>
        exists i, k :: 0 <= i < |data| && k in data[i] && ConvertEntry(data[i][k], k, types, parse) == Null)
  {
    if data != [] {
      var types := ColumnTypes(data, InferWith(step, parse));
      var c := ConvertRows(data, types, parse);
      if exists i, k :: 0 <= i < |data| && k in data[i] && ConvertEntry(data[i][k], k, types, parse) == Null {
        var i, k :| 0 <= i < |data| && k in data[i] && ConvertEntry(data[i][k], k, types, parse) == Null;
        assert c[i][k] == Null;
      }
    }
  }

  /**
   * On success the rows, their keys and their order are kept, invalid
   * values are untouched and every valid value is coerced to the class
   * inferred for its column.
   */
  lemma TypeInferenceOutcome(data: Dataset, step: TypeInferenceStep, parse: DateParser)
    requires data != [] && TypeInferenceOf(data, step, parse).Ok?
    ensures var r := TypeInferenceOf(data, step, parse).value;
      SameShape(data, r)
      && (forall i, k :: 0 <= i < |r| && k in r[i] && !IsValidValue(data[i][k]) ==> r[i][k] == data[i][k])
      && (forall i, k :: 0 <= i < |r| && k in r[i] && IsValidValue(data[i][k]) ==>
            k in ColumnTypes(data, InferWith(step, parse))
            && r[i][k] == ConvertValue(data[i][k], ColumnTypes(data, InferWith(step, parse))[k], parse))
  {
    var types := ColumnTypes(data, InferWith(step, parse));
    var r := TypeInferenceOf(data, step, parse).value;
    assert r == ConvertRows(data, types, parse);
    forall i, k | 0 <= i < |r| && k in r[i] && IsValidValue(data[i][k])
      ensures k in types && r[i][k] == ConvertValue(data[i][k], types[k], parse)
    {
      ValidValueTyped(data, k, i, InferWith(step, parse));
    }
  }

  /** Every column holding a valid value gets a class, so the String default is never used. */
  lemma ValidValueTyped(data: Dataset, k: string, i: int, infer: Classifier)
    requires 0 <= i < |data| && k in data[i] && IsValidValue(data[i][k])
    ensures k in ColumnTypes(data, infer)
  {
    ObservedHas(data, k, i, infer);
    assert k in Columns(data) by { assert k in data[i]; }
  }

  /**
   * Strings do not override a date column: when the first observed class is
   * LocalDate and every later one is LocalDate or String, the column is
   * LocalDate.
   */
  lemma DateColumnIgnoresText(ts: seq<JType>)
    requires ts != [] && ts[0] == LocalDateT
    requires forall i :: 0 <= i < |ts| ==> ts[i] == LocalDateT || ts[i] == StringT
    ensures FoldMerge(ts) == LocalDateT
  {
    FoldMergeOutcome(ts);
  }

  /**
   * A valid String that no formatter parses, in a column inferred as
   * LocalDate, coerces to null, so the whole step fails.
   */
  lemma UnparsableDateFails(data: Dataset, step: TypeInferenceStep, parse: DateParser, i: int, k: string)
    requires 0 <= i < |data| && k in data[i] && data[i][k].Str? && IsValidValue(data[i][k])
    requires k in ColumnTypes(data, InferWith(step, parse))
    requires ColumnTypes(data, InferWith(step, parse))[k] == LocalDateT
    requires FirstParse(DateFormatters, Trim(data[i][k].s), parse).None?
    ensures TypeInferenceOf(data, step, parse) == Err(NullValue)
  {
    var types := ColumnTypes(data, InferWith(step, parse));
    var v := data[i][k];
    UnparsableDateText(v.s, parse);
    assert ConvertEntry(v, k, types, parse) == Null;
    TypeInferenceFails(data, step, parse);
  }

  /** A text that no formatter parses converts to null under a LocalDate target. */
  lemma UnparsableDateText(s: string, parse: DateParser)
    requires FirstParse(DateFormatters, Trim(s), parse).None?
    ensures ConvertValue(Str(s), LocalDateT, parse) == Null
  {
    ConvertByText(Str(s), LocalDateT, parse);
    assert ValueText(Str(s)) == s;
    ConvertTextCases(Str(s), Trim(s), LocalDateT, parse);
  }
}
