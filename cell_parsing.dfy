/**
 * The text helpers of DataProcessingService: column-name normalisation,
 * the file extension, and the classification of one CSV cell.
 */
module CellParsing {
  import opened Wrappers
  import opened Text
  import opened Numbers
  import opened Dates
  import opened Values

  /** standardizeColumnName: trim, lowercase, then each run of characters outside [a-z0-9] becomes "_". */
  function StandardizeColumnName(columnName: string): string {
    CollapseRuns(ToLower(Trim(columnName)), NameBreak(), '_')
  }

  /** A normalised name: only [a-z0-9_], and never two "_" in a row. */
  predicate IsStandardName(s: string) {
    (forall i :: 0 <= i < |s| ==> IsLowerAlnum(s[i]) || s[i] == '_')
    && (forall i :: 0 <= i < |s| - 1 ==> !(s[i] == '_' && s[i + 1] == '_'))
  }

  /** Every normalised name has the shape above. */
  lemma StandardizedShape(columnName: string)
    ensures IsStandardName(StandardizeColumnName(columnName))
  {
    var s := ToLower(Trim(columnName));
    var r := StandardizeColumnName(columnName);
    CollapseShape(s, NameBreak(), '_');
    CollapseChars(s, NameBreak(), '_');
    forall i | 0 <= i < |r|
      ensures IsLowerAlnum(r[i]) || r[i] == '_'
    {
      assert r[i] in r;
    }
    forall i | 0 <= i < |r| - 1
      ensures !(r[i] == '_' && r[i + 1] == '_')
    {
      if r[i] == '_' {
        assert NotLowerAlnum(r[i]);
      }
    }
  }

  /** A normalised name has no blanks to trim and no capitals to lower. */
  lemma StandardNameFixed(s: string)
    requires IsStandardName(s)
    ensures Trim(s) == s
    ensures ToLower(s) == s
    ensures Collapsed(s, NameBreak(), '_')
  {
    if s != [] {
      assert !IsControlOrSpace(s[0]) && !IsControlOrSpace(s[|s| - 1]);
      TrimIdentity(s);
    }
  }

  /** Normalising twice is normalising once. */
  lemma StandardizeIdempotent(columnName: string)
    ensures StandardizeColumnName(StandardizeColumnName(columnName)) == StandardizeColumnName(columnName)
  {
    var once := StandardizeColumnName(columnName);
    StandardizedShape(columnName);
    StandardNameFixed(once);
    CollapseFixed(once, NameBreak(), '_');
  }

  /** getFileExtension: the text after the last '.', or the whole name when there is none. */
  function FileExtension(filename: string): (r: string)
  {
    filename[LastIndexOf(filename, '.') + 1..]
  }

  /** The extension holds no '.'. */
  lemma FileExtensionHasNoDot(filename: string)
    ensures '.' !in FileExtension(filename)
  {
    var dot := LastIndexOf(filename, '.');
    var ext := FileExtension(filename);
    assert ext == filename[dot + 1..];
  }

  /** A name with a '.' is some stem, that '.', and the extension; a name without one is its own extension. */
  lemma FileExtensionSplits(filename: string)
    ensures '.' in filename ==>
      filename == filename[..LastIndexOf(filename, '.')] + "." + FileExtension(filename)
    ensures '.' !in filename ==> FileExtension(filename) == filename
  {
    var dot := LastIndexOf(filename, '.');
    if '.' in filename {
      var j :| 0 <= j < |filename| && filename[j] == '.';
      assert dot >= 0;
      assert filename == filename[..dot] + [filename[dot]] + filename[dot + 1..];
    } else {
      assert dot == -1;
    }
  }

  /** The formatters tried, in this order, on a cell's text. */
  const CellDateFormatters: seq<DateFormat> := [
    IsoLocalDate, Pattern("d/M/yy"), Pattern("M/d/yy"),
    Pattern("MM/dd/yyyy"), Pattern("MM/dd/yy"),
    Pattern("dd-MM-yyyy"), Pattern("MM-dd-yy"),
    Pattern("d/M/yy"), Pattern("M/d/yy"),
    Pattern("dd-MM-yyyy"), Pattern("dd-MM-yy"),
    Pattern("d-M-yy"), Pattern("M-d-yy"),
    Pattern("yyyy/MM/dd")
  ]

  /** The number attempt: Double.parseDouble when the text holds a '.', Long.parseLong otherwise. */
  function NumberOf(value: string): Option<Value> {
    if '.' in value then
      match ParseDouble(value) case Some(x) => Some(Dbl(x)) case None => None
    else
      match ParseLong(value) case Some(n) => Some(Long(n)) case None => None
  }

  /**
   * parseCellValue: empty text is null; then a number, then the first date
   * format that parses, then "true"/"false" in any case; else the text itself.
   */
  function ParseCellValue(value: string, parse: DateParser): Value {
    if value == [] then Null
    else match NumberOf(value)
      case Some(number) => number
      case None =>
        match FirstParse(CellDateFormatters, value, parse)
        case Some(day) => Date(day)
        case None =>
          if EqualsIgnoreCase(value, "true") || EqualsIgnoreCase(value, "false") then
            Bool(EqualsIgnoreCase(value, "true"))
          else Str(value)
  }

  /**
   * What each class of result means: null only for empty text; a Double
   * only from text with a '.', a Long only from text without; a date only
   * when no number parses; a Boolean only from "true" or "false"; and a
   * String is always the unchanged text. An Integer never comes out.
   */
  lemma ParseCellOutcome(value: string, parse: DateParser)
    ensures var r := ParseCellValue(value, parse);
      (r.Null? <==> value == [])
      && !r.Int?
      && (r.Dbl? ==> '.' in value && ParseDouble(value) == Some(r.d))
      && (r.Long? ==> '.' !in value && ParseLong(value) == Some(r.l))
      && (r.Date? ==> NumberOf(value).None? && FirstParse(CellDateFormatters, value, parse) == Some(r.day))
      && (r.Bool? ==>
            NumberOf(value).None? && FirstParse(CellDateFormatters, value, parse).None?
            && (EqualsIgnoreCase(value, "true") || EqualsIgnoreCase(value, "false"))
            && (r.b <==> EqualsIgnoreCase(value, "true")))
      && (r.Str? ==> r.s == value && NumberOf(value).None? && FirstParse(CellDateFormatters, value, parse).None?)
  {
  }

  /** The text of a long reads back as that long. */
  lemma ParseCellOfLong(n: Int64, parse: DateParser)
    ensures ParseCellValue(IntText(n), parse) == Long(n)
  {
    var s := IntText(n);
    ParseLongRoundTrip(n);
    assert '.' !in s by {
      if n < 0 {
        var digits := NatText(-(n as int));
        assert s == "-" + digits;
        assert forall i :: 1 <= i < |s| ==> s[i] == digits[i - 1];
      }
    }
  }

  /** "TRUE" is a Boolean unless some date format accepts it. */
  lemma ParseCellOfTrue(parse: DateParser)
    requires FirstParse(CellDateFormatters, "TRUE", parse).None?
    ensures ParseCellValue("TRUE", parse) == Bool(true)
  {
    NoNumberInTrue();
    assert EqualsIgnoreCase("TRUE", "true") by { LowerTrue(); }
  }

  lemma NoNumberInTrue()
    ensures NumberOf("TRUE").None?
  {
    assert !IsAsciiDigit("TRUE"[0]);
    assert '.' !in "TRUE";
  }

  lemma LowerTrue()
    ensures ToLower("TRUE") == "true" && ToLower("true") == "true"
  {
  }
}
