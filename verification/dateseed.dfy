// The daily-puzzle seed: a YYYY-MM-DD string turned into the number of days since
// 1970-01-01 (crates/engine/src/date_seed.rs), with Rust's trimming, splitting and
// integer parsing written out.
module DateSeed {
  import opened Results
  import opened Text
  import opened Calendar

  datatype DateSeedError = BadFormat | BadValue

  const I32Min: int := -0x8000_0000
  const I32Max: int := 0x7fff_ffff
  const U32Max: int := 0xffff_ffff

  /** Rust's str::parse for an integer type with range lo..=hi: an optional '+'
      (or '-' when the type is signed), then one or more ASCII digits whose value
      lies in the range. */
  function ParseInt(s: string, lo: int, hi: int): (r: Option<int>)
    requires lo <= 0 <= hi
    ensures r.Some? ==> lo <= r.value <= hi
    ensures r.Some? && r.value < 0 ==> |s| > 0 && s[0] == '-'
    ensures r.Some? && !Contains(s, '-') ==> r.value >= 0
  {
    if |s| == 0 || ((s[0] == '+' || s[0] == '-') && |s| == 1) then None
    else if s[0] == '-' && lo < 0 then
      (if AllDigits(s[1..]) && lo <= -(DecimalValue(s[1..]) as int) then Some(-(DecimalValue(s[1..]) as int)) else None)
    else
      var t := if s[0] == '+' then s[1..] else s;
      if AllDigits(t) && DecimalValue(t) <= hi then Some(DecimalValue(t)) else None
  }

  /** Any non-empty run of digits, leading zeros included, parses to its value when it fits. */
  lemma ParseDigits(t: string, lo: int, hi: int)
    requires lo <= 0 <= hi
    requires |t| > 0 && AllDigits(t) && DecimalValue(t) <= hi
    ensures ParseInt(t, lo, hi) == Some(DecimalValue(t))
  {
  }

  /** The year, month and day of a date string, each parsed and range-checked as
      date_to_seed_ymd does before it counts days. */
  function Fields(s: string): (r: Result<Date, DateSeedError>)
    ensures r.Err? && r.error == BadFormat <==> |Split(Trim(Rust, s), '-')| != 3
    ensures r.Ok? ==> I32Min <= r.value.year <= I32Max && 1 <= r.value.month <= 12 && 1 <= r.value.day <= 31
    ensures r.Ok? ==> r.value.year >= 0
  {
    var parts := Split(Trim(Rust, s), '-');
    if |parts| != 3 then Err(BadFormat)
    else
      assert parts[0] in parts;
      var year := ParseInt(parts[0], I32Min, I32Max);
      var month := ParseInt(parts[1], 0, U32Max);
      var day := ParseInt(parts[2], 0, U32Max);
      if year.None? || month.None? || day.None? then Err(BadValue)
      else if !(1 <= month.value <= 12) || !(1 <= day.value <= 31) then Err(BadValue)
      else Ok(Date(year.value, month.value, day.value))
  }

  /** date_to_seed_ymd: the day count of the date since 1970-01-01. A malformed
      string is BadFormat, an unparsable or out-of-range field is BadValue, and so
      is a date before the epoch. The month length is not checked, so 2023-02-31
      counts as 2023-03-03. */
  function DateToSeed(s: string): (r: Result<nat, DateSeedError>)
    ensures r.Ok? <==> Fields(s).Ok? && Fields(s).value.year >= 1970
    ensures r.Ok? ==> r.value == Days(Fields(s).value)
    ensures Fields(s).Err? ==> r == Err(Fields(s).error)
    ensures Fields(s).Ok? && Fields(s).value.year < 1970 ==> r == Err(BadValue)
  {
    match Fields(s)
    case Err(e) => Err(e)
    case Ok(d) =>
      DaysSign(d.year, d.month, d.day);
      var days := DaysFromCivil(d.year, d.month, d.day);
      if days < 0 then Err(BadValue) else Ok(days)
  }

  /** The text of an RFC 3339 full-date: the year in decimal, month and day as two digits. */
  function FullDate(year: nat, month: nat, day: nat): string {
    Decimal(year) + "-" + Pad2(month) + "-" + Pad2(day)
  }

  /** A full-date splits into its three fields. */
  lemma FullDateParts(year: nat, month: nat, day: nat)
    ensures Split(Trim(Rust, FullDate(year, month, day)), '-') == [Decimal(year), Pad2(month), Pad2(day)]
  {
    SplitDigitRuns(Decimal(year), Pad2(month), Pad2(day));
  }

  /** Three runs of digits joined by '-' need no trimming and split back apart. */
  lemma SplitDigitRuns(y: string, m: string, d: string)
    requires |y| > 0 && |d| > 0 && AllDigits(y) && AllDigits(m) && AllDigits(d)
    ensures Split(Trim(Rust, y + "-" + m + "-" + d), '-') == [y, m, d]
  {
    var s := y + "-" + m + "-" + d;
    assert s[0] == y[0] && s[|s| - 1] == d[|d| - 1];
    TrimUnchanged(Rust, s);
    DigitsExclude(y, '-');
    DigitsExclude(m, '-');
    DigitsExclude(d, '-');
    Join3(y, m, d, '-');
    SplitJoin([y, m, d], '-');
  }

  /** A full-date with fields in range parses to its date. */
  lemma FullDateFields(year: nat, month: nat, day: nat)
    requires year <= I32Max && 1 <= month <= 12 && 1 <= day <= 31
    ensures Fields(FullDate(year, month, day)) == Ok(Date(year, month, day))
  {
    FullDateParts(year, month, day);
    DecimalRoundTrip(year);
    ParseDigits(Decimal(year), I32Min, I32Max);
    ParseDigits(Pad2(month), 0, U32Max);
    ParseDigits(Pad2(day), 0, U32Max);
  }

  /** A well-formed date string yields the day count of its date when the year is
      1970 or later and BadValue otherwise. */
  lemma DateToSeedOfFullDate(year: nat, month: nat, day: nat)
    requires year <= I32Max && 1 <= month <= 12 && 1 <= day <= 31
    ensures DateToSeed(FullDate(year, month, day))
         == if year >= 1970 then Ok(DaysFromCivil(year, month, day)) else Err(BadValue)
  {
    FullDateFields(year, month, day);
  }

  lemma Decimal1970()
    ensures Decimal(1970) == "1970"
  {
    assert Decimal(1) == "1";
    assert Decimal(19) == "19";
    assert Decimal(197) == "197";
  }

  lemma EpochTexts()
    ensures FullDate(1970, 1, 1) == "1970-01-01"
    ensures FullDate(1970, 1, 2) == "1970-01-02"
    ensures FullDate(1970, 1, 31) == "1970-01-31"
  {
    Decimal1970();
    assert Pad2(1) == "01";
    assert Pad2(2) == "02";
    assert Pad2(31) == "31" by { assert Decimal(3) == "3"; }
  }

  /** A day of January 1970 is its day number less one days after the epoch. */
  lemma January1970(day: int)
    ensures DaysFromCivil(1970, 1, day) == day - 1
  {
    assert YearBase(1969) == 719162;
    assert MonthBase(10) == 306;
  }

  lemma EpochCounts()
    ensures DaysFromCivil(1970, 1, 1) == 0
    ensures DaysFromCivil(1970, 1, 2) == 1
    ensures DaysFromCivil(1970, 1, 31) == 30
  {
    January1970(1);
    January1970(2);
    January1970(31);
  }

  /** The three dates the source's own unit test checks: the epoch, the day
      after and the last day of its month. */
  lemma EpochExamples()
    ensures DateToSeed("1970-01-01") == Ok(0)
    ensures DateToSeed("1970-01-02") == Ok(1)
    ensures DateToSeed("1970-01-31") == Ok(30)
  {
    EpochTexts();
    EpochCounts();
    DateToSeedOfFullDate(1970, 1, 1);
    DateToSeedOfFullDate(1970, 1, 2);
    DateToSeedOfFullDate(1970, 1, 31);
  }

  /** days_from_civil exactly as written: the era of a negative shifted year is
      taken from y - 399 before the floor division, although the floor division
      already rounds toward negative infinity. */
  function DaysFromCivilAsWritten(year: int, month: int, day: int): (n: int)
    requires 1 <= month <= 12
    ensures ShiftedYear(year, month) >= -1 ==> n == DaysFromCivil(year, month, day)
  {
    var y := ShiftedYear(year, month);
    var era := (if y >= 0 then y else y - 399) / 400;
    var yoe := y - era * 400;
    var mp := MarchMonth(month);
    var doy := MonthBase(mp) + day - 1;
    var doe := yoe * 365 + yoe / 4 - yoe / 100 + doy;
    era * 146097 + doe - 719468
  }

  /** The as-written count is one day short for every shifted year below -1
      except those one below a multiple of 400. */
  lemma AsWrittenOffset(year: int, month: int, day: int)
    requires 1 <= month <= 12
    ensures var y := ShiftedYear(year, month);
      DaysFromCivilAsWritten(year, month, day)
      == if y >= 0 || y % 400 == 399 then DaysFromCivil(year, month, day) else DaysFromCivil(year, month, day) - 1
  {
    var y := ShiftedYear(year, month);
    if y < 0 {
      var q, r := y / 400, y % 400;
      assert y == 400 * q + r;
      if r == 399 {
        assert (y - 399) / 400 == q;
      } else {
        assert (y - 399) / 400 == q - 1;
        var yoe := y - (q - 1) * 400;
        assert yoe == r + 400;
        assert yoe / 4 == r / 4 + 100;
        assert yoe / 100 == r / 100 + 4;
      }
    }
  }

  /** The as-written count jumps by two from 28 February to 1 March of year -1,
      which are consecutive days. */
  lemma AsWrittenSkipsDay()
    ensures Next(Date(-1, 2, 28)) == Date(-1, 3, 1)
    ensures DaysFromCivilAsWritten(-1, 3, 1) - DaysFromCivilAsWritten(-1, 2, 28) == 2
    ensures Days(Date(-1, 3, 1)) - Days(Date(-1, 2, 28)) == 1
  {
    DaysNext(Date(-1, 2, 28));
    AsWrittenOffset(-1, 3, 1);
    AsWrittenOffset(-1, 2, 28);
  }

  /** The discrepancy cannot reach a seed: a parsed year is never negative, so the
      shifted year is at least -1, where the two counts agree. */
  lemma SeedUnaffected(s: string)
    requires Fields(s).Ok?
    ensures var d := Fields(s).value;
      DaysFromCivilAsWritten(d.year, d.month, d.day) == DaysFromCivil(d.year, d.month, d.day)
  {
    var d := Fields(s).value;
    AsWrittenOffset(d.year, d.month, d.day);
  }
}
