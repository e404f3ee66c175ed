// Calendar dates as the statistics page writes them, "YYYY-MM-DD", and ymdAddDays
// (apps/web/src/lib/stats.js), which reads one through JavaScript's Date in UTC,
// moves it by whole days and writes it back.
module Ymd {
  import opened Results
  import opened Text
  import Calendar

  datatype YmdError = BadYmd(text: string)

  /** The text matches `^\d{4}-\d{2}-\d{2}$`. */
  predicate Shaped(s: string) {
    |s| == 10 && AllDigits(s[..4]) && s[4] == '-' && AllDigits(s[5..7]) && s[7] == '-' && AllDigits(s[8..])
  }

  /** The year, month and day numbers of a shaped text. */
  function FieldsOf(s: string): (d: Calendar.Date)
    requires Shaped(s)
    ensures 0 <= d.year <= 9999 && 0 <= d.month <= 99 && 0 <= d.day <= 99
  {
    DecimalValueBound(s[..4]);
    DecimalValueBound(s[5..7]);
    DecimalValueBound(s[8..]);
    Calendar.Date(DecimalValue(s[..4]), DecimalValue(s[5..7]), DecimalValue(s[8..]))
  }

  /** The date `new Date(s + "T00:00:00Z")` denotes, for the trimmed text; None when
      the text is not shaped or names no calendar date (an Invalid Date). */
  function Parse(ymd: string): (r: Option<Calendar.Date>)
    ensures r.Some? <==> Shaped(Trim(Js, ymd)) && Calendar.Valid(FieldsOf(Trim(Js, ymd)))
    ensures r.Some? ==> r.value == FieldsOf(Trim(Js, ymd))
    ensures r.Some? ==> Calendar.Valid(r.value) && 0 <= r.value.year <= 9999
  {
    var s := Trim(Js, ymd);
    if !Shaped(s) then None
    else
      var d := FieldsOf(s);
      if Calendar.Valid(d) then Some(d) else None
  }

  /** `${y}` for the UTC full year: no padding, and a minus sign before the year. */
  function YearText(y: int): string {
    if y >= 0 then Decimal(y) else "-" + Decimal(-y)
  }

  /**
   * The output line of ymdAddDays for a date. A date of a four-digit year is
   * written in the accepted shape and reads back as itself.
   */
  function Format(d: Calendar.Date): (r: string)
    requires Calendar.Valid(d)
    ensures 1000 <= d.year <= 9999 ==> Shaped(r) && Parse(r) == Some(d)
  {
    if 1000 <= d.year <= 9999 then
      DecimalLength(d.year, 4);
      Pad2Length(d.month);
      Pad2Length(d.day);
      DecimalRoundTrip(d.year);
      ReadJoined(Decimal(d.year), Pad2(d.month), Pad2(d.day));
      YearText(d.year) + "-" + Pad2(d.month) + "-" + Pad2(d.day)
    else
      YearText(d.year) + "-" + Pad2(d.month) + "-" + Pad2(d.day)
  }

  /** The bound TimeClip of ECMA-262 puts on a Date's time value, 8.64e15 ms,
      in whole days either side of 1970-01-01. */
  const MaxTimeDays := 100_000_000

  /** What a Date whose time value is NaN gives for its year, month and day
      once each is templated or padded: "NaN" three times. */
  const InvalidText := "NaN-NaN-NaN"

  /** A day count whose midnight a Date can hold. */
  predicate InTimeRange(n: int) {
    -MaxTimeDays <= n <= MaxTimeDays
  }

  /** ymdAddDays: the date delta days later (earlier when delta is negative).
      When the moved date lies past the range a Date can hold, setUTCDate leaves
      the Date invalid and the three fields all read NaN. */
  function AddDays(ymd: string, delta: int): (r: Result<string, YmdError>)
    ensures r.Err? <==> Parse(ymd).None?
    ensures r.Err? ==> r == Err(BadYmd(Trim(Js, ymd)))
    ensures Parse(ymd).Some? ==>
      (r == Ok(InvalidText) <==> !InTimeRange(Calendar.Days(Parse(ymd).value) + delta))
  {
    match Parse(ymd)
    case None => Err(BadYmd(Trim(Js, ymd)))
    case Some(d) =>
      if InTimeRange(Calendar.Days(d) + delta) then
        var e := Calendar.Shift(d, delta);
        FormatIsNotInvalid(e);
        Ok(Format(e))
      else
        Ok(InvalidText)
  }

  /** A formatted date starts with a digit or a minus sign, so it is never the
      text of an invalid Date. */
  lemma FormatIsNotInvalid(d: Calendar.Date)
    requires Calendar.Valid(d)
    ensures Format(d) != InvalidText
  {
    var y := YearText(d.year);
    assert y[0] == '-' || IsDigit(y[0]);
    assert Format(d)[0] == y[0];
  }

  /** Every date with a four-digit year lies well inside the range a Date can hold. */
  lemma FourDigitInRange(d: Calendar.Date)
    requires Calendar.Valid(d) && 1000 <= d.year <= 9999
    ensures Calendar.Days(Calendar.Date(1000, 1, 1)) <= Calendar.Days(d) <= Calendar.Days(Calendar.Date(9999, 12, 31))
    ensures InTimeRange(Calendar.Days(Calendar.Date(1000, 1, 1)))
    ensures InTimeRange(Calendar.Days(Calendar.Date(9999, 12, 31)))
  {
    Calendar.DaysWithinYear(d);
    Calendar.DaysWithinYear(Calendar.Date(1000, 1, 1));
    Calendar.DaysWithinYear(Calendar.Date(9999, 12, 31));
    if 1000 < d.year {
      Calendar.YearStartsOrder(1000, d.year);
    }
    if d.year < 9999 {
      Calendar.YearStartsOrder(d.year, 9999);
    }
  }

  /** Four digits, two digits and two digits joined by '-' are shaped, need no
      trimming, and read as the values of the three runs. */
  lemma ReadJoined(y: string, m: string, dd: string)
    requires |y| == 4 && |m| == 2 && |dd| == 2 && AllDigits(y) && AllDigits(m) && AllDigits(dd)
    ensures var s := y + "-" + m + "-" + dd;
      Shaped(s) && Trim(Js, s) == s
      && FieldsOf(s) == Calendar.Date(DecimalValue(y), DecimalValue(m), DecimalValue(dd))
  {
    var s := y + "-" + m + "-" + dd;
    JoinSlices(y, m, dd);
    assert !IsSpace(Js, y[0]) && !IsSpace(Js, dd[1]);
    TrimUnchanged(Js, s);
  }

  lemma JoinSlices(y: string, m: string, dd: string)
    requires |y| == 4 && |m| == 2 && |dd| == 2
    ensures var s := y + "-" + m + "-" + dd;
      |s| == 10 && s[..4] == y && s[4] == '-' && s[5..7] == m && s[7] == '-' && s[8..] == dd
      && s[0] == y[0] && s[9] == dd[1]
  {
    var s := y + "-" + m + "-" + dd;
    assert s[..4] == y && s[5..7] == m && s[8..] == dd;
  }

  /** A readable text of a four-digit year with no leading zero is written back
      exactly, less any surrounding white space. */
  lemma ParseFormat(ymd: string)
    requires Parse(ymd).Some? && Parse(ymd).value.year >= 1000
    ensures Format(Parse(ymd).value) == Trim(Js, ymd)
  {
    var s := Trim(Js, ymd);
    var d := Parse(ymd).value;
    assert s[0] != '0' by {
      if s[0] == '0' {
        assert s[..4] == ['0'] + s[1..4];
        LeadingZeroValue(s[..4]);
      }
    }
    DecimalOfValue(s[..4]);
    Pad2OfValue(s[5..7]);
    Pad2OfValue(s[8..]);
    assert s == s[..4] + "-" + s[5..7] + "-" + s[8..];
  }

  /** A leading zero leaves a four-digit value below 1000. */
  lemma LeadingZeroValue(s: string)
    requires AllDigits(s) && |s| == 4 && s[0] == '0'
    ensures DecimalValue(s) < 1000
  {
    DecimalValueBound(s[1..]);
    assert Pow10(3) == 1000;
    DigitsAfterZero(s);
  }

  lemma {:induction false} DigitsAfterZero(s: string)
    requires AllDigits(s) && |s| >= 1 && s[0] == '0'
    ensures DecimalValue(s) == DecimalValue(s[1..])
    decreases |s|
  {
    if |s| > 1 {
      DigitsAfterZero(s[..|s| - 1]);
      assert s[..|s| - 1][1..] == s[1..][..|s[1..]| - 1];
    }
  }

  /** Adding no days writes the same text back (trimmed), for a four-digit year. */
  lemma AddZero(ymd: string)
    requires Parse(ymd).Some? && Parse(ymd).value.year >= 1000
    ensures AddDays(ymd, 0) == Ok(Trim(Js, ymd))
  {
    ParseFormat(ymd);
  }

  /** A date read from a text is a calendar date of at most four digits. */
  lemma ParsedDate(ymd: string, d: Calendar.Date)
    requires Parse(ymd) == Some(d)
    ensures Calendar.Valid(d) && 0 <= d.year <= 9999
  {
  }

  /** The text names the date with day count n. */
  predicate Names(s: string, n: int) {
    Parse(s).Some? && Calendar.Days(Parse(s).value) == n
  }

  /** The result names the date whose day count is delta more, provided it has a
      four-digit year. */
  lemma AddDaysCount(ymd: string, d: Calendar.Date, delta: int)
    requires Parse(ymd) == Some(d)
    requires 1000 <= Calendar.Shift(d, delta).year <= 9999
    ensures AddDays(ymd, delta).Ok?
    ensures Names(AddDays(ymd, delta).value, Calendar.Days(d) + delta)
  {
    var e := Calendar.Shift(d, delta);
    FourDigitInRange(e);
    MoveOf(ymd, d, delta);
    assert Parse(Format(e)) == Some(e);
  }

  /** Moving the text of a four-digit-year date moves the date, as long as the
      moved date stays in the range a Date can hold. */
  lemma AddDaysOfFormat(d: Calendar.Date, k: int)
    requires Calendar.Valid(d) && 1000 <= d.year <= 9999
    requires InTimeRange(Calendar.Days(d) + k)
    ensures AddDays(Format(d), k) == Ok(Format(Calendar.Shift(d, k)))
  {
  }

  /** Moving any date past the range a Date can hold gives the invalid text. */
  lemma AddDaysPastRange(d: Calendar.Date, k: int)
    requires Calendar.Valid(d) && 1000 <= d.year <= 9999
    requires !InTimeRange(Calendar.Days(d) + k)
    ensures AddDays(Format(d), k) == Ok(InvalidText)
  {
  }

  /** Two moves in a row are one move by the sum, while the first move keeps a
      four-digit year; past the range a Date can hold both give the invalid text. */
  lemma AddDaysCompose(ymd: string, a: int, b: int)
    requires Parse(ymd).Some?
    requires 1000 <= Calendar.Shift(Parse(ymd).value, a).year <= 9999
    ensures AddDays(ymd, a).Ok?
    ensures AddDays(AddDays(ymd, a).value, b) == AddDays(ymd, a + b)
  {
    var d := Parse(ymd).value;
    var e := Calendar.Shift(d, a);
    FourDigitInRange(e);
    MoveOf(ymd, d, a);
    MoveOf(ymd, d, a + b);
    MoveOf(Format(e), e, b);
    if InTimeRange(Calendar.Days(e) + b) {
      Calendar.ShiftCompose(d, a, b);
    }
  }

  /** One move of a text that reads as d, by cases on the range. */
  lemma MoveOf(ymd: string, d: Calendar.Date, k: int)
    requires Parse(ymd) == Some(d)
    ensures AddDays(ymd, k) ==
      if InTimeRange(Calendar.Days(d) + k) then Ok(Format(Calendar.Shift(d, k))) else Ok(InvalidText)
  {
  }

  /** A date of a four-digit year is written digit by digit. */
  lemma FormatDigits(d: Calendar.Date)
    requires Calendar.Valid(d) && 1000 <= d.year <= 9999
    ensures Format(d) == [DigitChar(d.year / 1000), DigitChar(d.year / 100 % 10), DigitChar(d.year / 10 % 10),
      DigitChar(d.year % 10), '-', DigitChar(d.month / 10), DigitChar(d.month % 10), '-',
      DigitChar(d.day / 10), DigitChar(d.day % 10)]
  {
    DecimalFour(d.year);
    Pad2Digits(d.month);
    Pad2Digits(d.day);
  }

  /** The text of a four-digit-year date is its ten characters. */
  lemma FormatIs(d: Calendar.Date, s: string)
    requires Calendar.Valid(d) && 1000 <= d.year <= 9999
    requires s == [DigitChar(d.year / 1000), DigitChar(d.year / 100 % 10), DigitChar(d.year / 10 % 10),
      DigitChar(d.year % 10), '-', DigitChar(d.month / 10), DigitChar(d.month % 10), '-',
      DigitChar(d.day / 10), DigitChar(d.day % 10)]
    ensures Format(d) == s
  {
    FormatDigits(d);
  }

  // The source's ymdAddDays tests.

  lemma ExampleTexts(a: Calendar.Date, b: Calendar.Date, c: Calendar.Date, e: Calendar.Date)
    requires a == Calendar.Date(2025, 12, 21) && b == Calendar.Date(2025, 12, 22)
    requires c == Calendar.Date(2025, 1, 1) && e == Calendar.Date(2024, 12, 31)
    ensures Format(a) == "2025-12-21" && Format(b) == "2025-12-22"
    ensures Format(c) == "2025-01-01" && Format(e) == "2024-12-31"
  {
    ExampleDecember(a, b);
    ExampleNewYear(c, e);
  }

  lemma ExampleDecember(a: Calendar.Date, b: Calendar.Date)
    requires a == Calendar.Date(2025, 12, 21) && b == Calendar.Date(2025, 12, 22)
    ensures Format(a) == "2025-12-21" && Format(b) == "2025-12-22"
  {
    DigitChars();
    FormatIs(a, "2025-12-21");
    FormatIs(b, "2025-12-22");
  }

  lemma ExampleNewYear(c: Calendar.Date, e: Calendar.Date)
    requires c == Calendar.Date(2025, 1, 1) && e == Calendar.Date(2024, 12, 31)
    ensures Format(c) == "2025-01-01" && Format(e) == "2024-12-31"
  {
    ExampleNewYearsDay(c);
    ExampleNewYearsEve(e);
  }

  lemma ExampleNewYearsDay(c: Calendar.Date)
    requires c == Calendar.Date(2025, 1, 1)
    ensures Format(c) == "2025-01-01"
  {
    DigitChars();
    FormatIs(c, "2025-01-01");
  }

  lemma ExampleNewYearsEve(e: Calendar.Date)
    requires e == Calendar.Date(2024, 12, 31)
    ensures Format(e) == "2024-12-31"
  {
    DigitChars();
    FormatIs(e, "2024-12-31");
  }

  lemma ExampleShifts()
    ensures Calendar.Shift(Calendar.Date(2025, 12, 21), 1) == Calendar.Date(2025, 12, 22)
    ensures Calendar.Shift(Calendar.Date(2025, 1, 1), -1) == Calendar.Date(2024, 12, 31)
  {
  }

  lemma AddDaysExamples()
    ensures AddDays("2025-12-21", 0) == Ok("2025-12-21")
    ensures AddDays("2025-12-21", 1) == Ok("2025-12-22")
    ensures AddDays("2025-01-01", -1) == Ok("2024-12-31")
  {
    ExampleTexts(Calendar.Date(2025, 12, 21), Calendar.Date(2025, 12, 22), Calendar.Date(2025, 1, 1), Calendar.Date(2024, 12, 31));
    ExampleShifts();
    AddDaysOfFormat(Calendar.Date(2025, 12, 21), 0);
    AddDaysOfFormat(Calendar.Date(2025, 12, 21), 1);
    AddDaysOfFormat(Calendar.Date(2025, 1, 1), -1);
  }
}
