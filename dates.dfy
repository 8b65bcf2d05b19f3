/** The published-date parsing of the book service: java.time's `LocalDate.parse`
    with a formatter built from the pattern `yyyy[-MM[-dd]]`, where a missing
    month and a missing day default to 1. */
module Dates {
  import opened Wrappers
  import opened Decimal

  /** A `java.time.LocalDate`, as its three fields. */
  datatype LocalDate = LocalDate(year: int, month: int, day: int)

  /** Why a text is not a date: it does not fit the pattern, or a field is out
      of its range (both are a `DateTimeParseException` in Java). */
  datatype DateError = Unparsed(text: string) | InvalidValue(field: string, value: int)

  /** The ranges the resolver checks: year-of-era from 1 (four unsigned digits
      reach at most 9999), month 1..12, day-of-month 1..31. */
  predicate InRange(d: LocalDate) {
    1 <= d.year <= 9999 && 1 <= d.month <= 12 && 1 <= d.day <= 31
  }

  /** An optional section `-NN`: a dash and exactly two digits. */
  predicate IsSection(s: string) {
    |s| >= 3 && s[0] == '-' && AllDigits(s[1..3])
  }

  /** The field checks of the resolver, in the order java.time applies them. */
  function Resolve(year: int, month: int, day: int): (r: Result<LocalDate, DateError>)
    requires year <= 9999
    ensures r.Success? <==> InRange(LocalDate(year, month, day))
    ensures r.Success? ==> r.value == LocalDate(year, month, day)
  {
    if year < 1 then Failure(InvalidValue("YearOfEra", year))
    else if month < 1 || month > 12 then Failure(InvalidValue("MonthOfYear", month))
    else if day < 1 || day > 31 then Failure(InvalidValue("DayOfMonth", day))
    else Success(LocalDate(year, month, day))
  }

  /** `LocalDate.parse(text, yyyy[-MM[-dd]] with month and day defaulting to 1)`:
      four digits of year, then optionally `-MM`, and within it optionally
      `-dd`; an optional section that does not match is skipped, and any text
      left over is an error. */
  function ParsePublishedDate(text: string): (r: Result<LocalDate, DateError>)
    ensures r.Success? ==> InRange(r.value)
  {
    if |text| < 4 || !AllDigits(text[..4]) then Failure(Unparsed(text))
    else
      var year := Value(text[..4]);
      assert year < Power10(4) == 10000;
      var rest := text[4..];
      if rest == "" then Resolve(year, 1, 1)
      else if !IsSection(rest) then Failure(Unparsed(text))
      else
        var month := Value(rest[1..3]);
        var rest' := rest[3..];
        if rest' == "" then Resolve(year, month, 1)
        else if !IsSection(rest') || |rest'| != 3 then Failure(Unparsed(text))
        else Resolve(year, month, Value(rest'[1..3]))
  }

  /** The three shapes of text the pattern accepts. */
  function YearText(year: int): string
    requires 0 <= year
  {
    Pad(year, 4)
  }

  function YearMonthText(year: int, month: int): string
    requires 0 <= year && 0 <= month
  {
    Pad(year, 4) + "-" + Pad(month, 2)
  }

  /** ISO-8601 `yyyy-MM-dd`, the form `LocalDate.toString` gives for these years. */
  function IsoText(d: LocalDate): string
    requires InRange(d)
  {
    Pad(d.year, 4) + "-" + Pad(d.month, 2) + "-" + Pad(d.day, 2)
  }

  /** The pieces the parser cuts from a year followed by a `-NN` section and
      a tail. */
  lemma SectionParts(y: string, n: string, tail: string)
    requires |y| == 4 && |n| == 2
    ensures var text := y + "-" + n + tail;
      && text[..4] == y && text[4..] == "-" + n + tail
      && (text[4..])[1..3] == n && (text[4..])[3..] == tail
  {
  }

  /** A bare year parses to the first of January of that year. */
  lemma ParseYearOnly(year: int)
    requires 1 <= year <= 9999
    ensures ParsePublishedDate(YearText(year)) == Success(LocalDate(year, 1, 1))
  {
    var text := YearText(year);
    assert text[..4] == text && text[4..] == "";
    ValueOfPad(year, 4);
  }

  /** A year and month parse to the first day of that month. */
  lemma ParseYearMonth(year: int, month: int)
    requires 1 <= year <= 9999 && 1 <= month <= 12
    ensures ParsePublishedDate(YearMonthText(year, month)) == Success(LocalDate(year, month, 1))
  {
    SectionParts(Pad(year, 4), Pad(month, 2), "");
    assert YearMonthText(year, month) == Pad(year, 4) + "-" + Pad(month, 2) + "";
    ValueOfPad(year, 4);
    ValueOfPad(month, 2);
  }

  /** A full date parses to itself: parsing undoes `IsoText`. */
  lemma ParseIsoText(d: LocalDate)
    requires InRange(d)
    ensures ParsePublishedDate(IsoText(d)) == Success(d)
  {
    var dd := Pad(d.day, 2);
    SectionParts(Pad(d.year, 4), Pad(d.month, 2), "-" + dd);
    assert IsoText(d) == Pad(d.year, 4) + "-" + Pad(d.month, 2) + ("-" + dd);
    assert ("-" + dd)[1..3] == dd;
    ValueOfPad(d.year, 4);
    ValueOfPad(d.month, 2);
    ValueOfPad(d.day, 2);
  }

  /** Conversely, every text that parses has one of the three shapes: a year
      (the date is then the first of January), a year and month (the first of
      that month) or a full date. Nothing else is accepted. */
  lemma ParsedTextShape(text: string)
    requires ParsePublishedDate(text).Success?
    ensures var d := ParsePublishedDate(text).value;
      || (text == YearText(d.year) && d.month == 1 && d.day == 1)
      || (text == YearMonthText(d.year, d.month) && d.day == 1)
      || text == IsoText(d)
  {
    var d := ParsePublishedDate(text).value;
    var y := text[..4];
    PadOfValue(y);
    var rest := text[4..];
    if rest == "" {
      assert text == y;
    } else {
      var m := rest[1..3];
      PadOfValue(m);
      var rest' := rest[3..];
      if rest' == "" {
        assert text == y + "-" + m;
      } else {
        var dd := rest'[1..3];
        PadOfValue(dd);
        assert text == y + "-" + m + "-" + dd;
      }
    }
  }
}
