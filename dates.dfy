/**
 * java.time.LocalDate as a count of days since 1970-01-01 (the epoch day
 * LocalDate itself uses), the calendar arithmetic the cleaning steps need,
 * LocalDate.toString(), the Excel serial-date conversion, and formatter
 * parsing reduced to its first-success-wins order.
 */
module Dates {
  import opened Wrappers
  import opened Text
  import opened Numbers

  /**
   * The epoch day of a proleptic-Gregorian date, as LocalDate.of(y, m, d)
   * followed by toEpochDay() computes it (the days-from-civil algorithm).
   */
  function CivilDay(y: int, m: int, d: int): int
    requires 1 <= m <= 12
  {
    var y' := if m <= 2 then y - 1 else y;
    var era := y' / 400;
    var yoe := y' - era * 400;
    var mp := if m > 2 then m - 3 else m + 9;
    var doy := (153 * mp + 2) / 5 + d - 1;
    var doe := yoe * 365 + yoe / 4 - yoe / 100 + doy;
    era * 146097 + doe - 719468
  }

  datatype Civil = Civil(year: int, month: int, day: int)

  /** LocalDate.ofEpochDay: year, month and day of an epoch day. */
  function CivilFromDay(z: int): (c: Civil)
    ensures 1 <= c.month <= 12 && 1 <= c.day <= 31
  {
    var z' := z + 719468;
    var era := z' / 146097;
    var doe := z' - era * 146097;
    var yoe := (doe - doe / 1460 + doe / 36524 - doe / 146096) / 365;
    var doy := doe - (365 * yoe + yoe / 4 - yoe / 100);
    var mp := (5 * doy + 2) / 153;
    var d := doy - (153 * mp + 2) / 5 + 1;
    var m := if mp < 10 then mp + 3 else mp - 9;
    Civil(yoe + era * 400 + (if m <= 2 then 1 else 0), m, d)
  }

  /** The next calendar day inside a month is the next epoch day (LocalDate.plusDays(1)). */
  lemma CivilDayNext(y: int, m: int, d: int)
    requires 1 <= m <= 12
    ensures CivilDay(y, m, d + 1) == CivilDay(y, m, d) + 1
  {
  }

  /** The epoch itself, and the reference date the validator compares against. */
  lemma EpochLandmark()
    ensures CivilDay(1970, 1, 1) == 0
    ensures CivilFromDay(0) == Civil(1970, 1, 1)
  {
    assert 1969 / 400 == 4 && (153 * 10 + 2) / 5 == 306 && 369 / 4 == 92 && 369 / 100 == 3;
    assert 719468 / 146097 == 4;
    var doe := 719468 - 4 * 146097;
    assert doe == 135080;
    assert doe / 1460 == 92 && doe / 36524 == 3 && doe / 146096 == 0;
    assert (135080 - 92 + 3) / 365 == 369;
    assert 135080 - (365 * 369 + 92 - 3) == 306;
    assert (5 * 306 + 2) / 153 == 10 && (153 * 10 + 2) / 5 == 306;
  }

  lemma ReferenceLandmark()
    ensures CivilDay(2025, 3, 25) == 20172
    ensures CivilFromDay(20172) == Civil(2025, 3, 25)
  {
    assert 2025 / 400 == 5 && (153 * 0 + 2) / 5 == 0 && 25 / 4 == 6 && 25 / 100 == 0;
    var z := 20172 + 719468;
    assert z / 146097 == 5;
    var doe := z - 5 * 146097;
    assert doe == 9155;
    assert doe / 1460 == 6 && doe / 36524 == 0 && doe / 146096 == 0;
    assert (9155 - 6) / 365 == 25;
    assert 9155 - (365 * 25 + 6 - 0) == 24;
    assert (5 * 24 + 2) / 153 == 0 && (153 * 0 + 2) / 5 == 0;
  }

  /** The earliest and latest dates LocalDate can hold (years -999999999 and +999999999). */
  const MinEpochDay: int := CivilDay(-999_999_999, 1, 1)
  const MaxEpochDay: int := CivilDay(999_999_999, 12, 31)

  /** Two decimal digits, zero-padded. */
  function Pad2(n: nat): (r: string)
    requires n < 100
    ensures |r| == 2 && AllDigits(r)
  {
    [DigitChar(n / 10), DigitChar(n % 10)]
  }

  /** Four decimal digits, zero-padded. */
  function Pad4(n: nat): (r: string)
    requires n < 10000
    ensures |r| == 4 && AllDigits(r)
  {
    Pad2(n / 100) + Pad2(n % 100)
  }

  /**
   * The year as LocalDate.toString() prints it: at least four digits, a
   * leading '-' for negative years and a leading '+' beyond 9999.
   */
  function YearText(y: int): string {
    if -1000 < y < 1000 then
      if y < 0 then "-" + Pad4(-y) else Pad4(y)
    else (if y > 9999 then "+" else "") + IntText(y)
  }

  /** LocalDate.toString(): the ISO-8601 form uuuu-MM-dd. */
  function DateText(day: int): (r: string)
    ensures |r| >= 6 && r[|r| - 6] == '-' && r[|r| - 3] == '-' && EndsWithDigit(r)
  {
    var c := CivilFromDay(day);
    YearText(c.year) + "-" + Pad2(c.month) + "-" + Pad2(c.day)
  }

  lemma ReferenceDateText()
    ensures DateText(20172) == "2025-03-25"
  {
    ReferenceLandmark();
  }

  /** Day 0 of the Excel serial scale, 1899-12-31. */
  const ExcelBaseDay: int := CivilDay(1899, 12, 31)

  /**
   * excelSerialToLocalDate: 1899-12-31 plus the serial truncated toward
   * zero, one day less from serial 60 on (Excel's phantom 1900-02-29).
   * None when the result lies outside LocalDate's range, where plusDays
   * throws.
   */
  function ExcelSerialDate(serial: real): (r: Option<int>)
    ensures r.Some? ==> MinEpochDay <= r.value <= MaxEpochDay
  {
    var days := Trunc(serial) - (if serial >= 60.0 then 1 else 0);
    var day := ExcelBaseDay + days;
    if MinEpochDay <= day <= MaxEpochDay then Some(day) else None
  }

  /** The serials around Excel's non-existent 1900-02-29. */
  lemma ExcelSerialLandmarks()
    ensures ExcelSerialDate(1.0) == Some(CivilDay(1900, 1, 1))
    ensures ExcelSerialDate(59.0) == Some(CivilDay(1900, 2, 28))
    ensures ExcelSerialDate(60.0) == Some(CivilDay(1900, 2, 28))
    ensures ExcelSerialDate(61.0) == Some(CivilDay(1900, 3, 1))
  {
    Landmarks1900();
    ExcelSerialWhole(1);
    ExcelSerialWhole(59);
    ExcelSerialWhole(60);
    ExcelSerialWhole(61);
  }

  lemma ExcelSerialWhole(n: nat)
    requires n <= 100
    ensures ExcelSerialDate(n as real) == Some(-25568 + n - (if n >= 60 then 1 else 0))
  {
    ExcelBaseLandmark();
    assert Trunc(n as real) == n;
  }

  /** Excel's day 0 sits well inside LocalDate's range. */
  lemma ExcelBaseLandmark()
    ensures ExcelBaseDay == -25568
    ensures MinEpochDay < -25568 && 0 < MaxEpochDay
  {
    assert CivilDay(1899, 12, 31) == -25568;
  }

  lemma Landmarks1900()
    ensures CivilDay(1900, 1, 1) == -25567
    ensures CivilDay(1900, 2, 28) == -25509
    ensures CivilDay(1900, 3, 1) == -25508
  {
  }

  /** A larger serial never gives an earlier date. */
  lemma {:induction false} ExcelSerialMonotone(a: real, b: real)
    requires a <= b
    requires ExcelSerialDate(a).Some? && ExcelSerialDate(b).Some?
    ensures ExcelSerialDate(a).value <= ExcelSerialDate(b).value
  {
    TruncMonotone(a, b);
  }

  /** The (long) cast never decreases as its argument grows. */
  lemma TruncMonotone(a: real, b: real)
    requires a <= b
    ensures Trunc(a) <= Trunc(b)
  {
    if a >= 0.0 {
      assert a.Floor <= b.Floor;
    } else if b < 0.0 {
      assert (-b).Floor <= (-a).Floor;
    }
  }

  /** A DateTimeFormatter: a pattern such as "M/d/yyyy", or ISO_LOCAL_DATE. */
  datatype DateFormat = Pattern(text: string) | IsoLocalDate

  /**
   * LocalDate.parse(text, formatter): the epoch day of the date when the
   * formatter accepts the whole text, None where it throws.
   */
  type DateParser = (DateFormat, string) -> Option<int>

  /** Try each formatter in order; the first that parses decides. */
  function FirstParse(formats: seq<DateFormat>, s: string, parse: DateParser): (r: Option<int>)
    ensures r.Some? ==> exists i :: 0 <= i < |formats| && parse(formats[i], s) == r
    ensures r.None? <==> forall i :: 0 <= i < |formats| ==> parse(formats[i], s).None?
  {
    if formats == [] then None
    else if parse(formats[0], s).Some? then parse(formats[0], s)
    else FirstParse(formats[1..], s, parse)
  }

  /** The index of the formatter FirstParse settles on. */
  predicate WinsAt(formats: seq<DateFormat>, s: string, parse: DateParser, i: int) {
    0 <= i < |formats| && parse(formats[i], s).Some?
    && forall j :: 0 <= j < i ==> parse(formats[j], s).None?
  }

  /**
   * First success wins: FirstParse yields a date exactly when some
   * formatter parses the text and every earlier one fails, and it is that
   * formatter's date.
   */
  lemma {:induction false} FirstParseWins(formats: seq<DateFormat>, s: string, parse: DateParser, i: int)
    requires WinsAt(formats, s, parse, i)
    ensures FirstParse(formats, s, parse) == parse(formats[i], s)
  {
    if i > 0 {
      assert parse(formats[0], s).None?;
      assert WinsAt(formats[1..], s, parse, i - 1) by {
        forall j | 0 <= j < i - 1
          ensures parse(formats[1..][j], s).None?
        {
          assert formats[1..][j] == formats[j + 1];
        }
      }
      FirstParseWins(formats[1..], s, parse, i - 1);
    }
  }

  /** Conversely, a date from FirstParse comes from the first formatter that parses. */
  lemma {:induction false} FirstParseHasWinner(formats: seq<DateFormat>, s: string, parse: DateParser)
    requires FirstParse(formats, s, parse).Some?
    ensures exists i :: WinsAt(formats, s, parse, i) && FirstParse(formats, s, parse) == parse(formats[i], s)
  {
    if parse(formats[0], s).Some? {
      assert WinsAt(formats, s, parse, 0);
    } else {
      FirstParseHasWinner(formats[1..], s, parse);
      var i :| WinsAt(formats[1..], s, parse, i) && FirstParse(formats[1..], s, parse) == parse(formats[1..][i], s);
      assert formats[1..][i] == formats[i + 1];
      forall j | 0 <= j < i + 1
        ensures parse(formats[j], s).None?
      {
        if j > 0 {
          assert formats[j] == formats[1..][j - 1];
        }
      }
      assert WinsAt(formats, s, parse, i + 1);
    }
  }
}
