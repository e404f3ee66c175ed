// Proleptic Gregorian calendar arithmetic: the day count since 1970-01-01 that
// days_from_civil computes (crates/engine/src/date_seed.rs) and the day stepping
// that JavaScript's Date performs for ymdAddDays (apps/web/src/lib/stats.js).
module Calendar {
  /** A calendar date; year 0 is the year before year 1, as in ISO 8601. */
  datatype Date = Date(year: int, month: int, day: int)

  predicate IsLeap(y: int) {
    y % 4 == 0 && (y % 100 != 0 || y % 400 == 0)
  }

  function DaysInMonth(y: int, m: int): (n: int)
    requires 1 <= m <= 12
    ensures 28 <= n <= 31
    ensures m == 2 ==> (n == 29 <==> IsLeap(y))
  {
    if m == 2 then (if IsLeap(y) then 29 else 28)
    else if m == 4 || m == 6 || m == 9 || m == 11 then 30
    else 31
  }

  /** The date exists on the calendar. */
  predicate Valid(d: Date) {
    1 <= d.month <= 12 && 1 <= d.day <= DaysInMonth(d.year, d.month)
  }

  /** Lexicographic order on (year, month, day): a comes strictly before b. */
  predicate Before(a: Date, b: Date) {
    a.year < b.year
    || (a.year == b.year && a.month < b.month)
    || (a.year == b.year && a.month == b.month && a.day < b.day)
  }

  /** The following day. */
  function Next(d: Date): (r: Date)
    requires Valid(d)
    ensures Valid(r) && Before(d, r)
  {
    if d.day < DaysInMonth(d.year, d.month) then Date(d.year, d.month, d.day + 1)
    else if d.month < 12 then Date(d.year, d.month + 1, 1)
    else Date(d.year + 1, 1, 1)
  }

  /** The preceding day. */
  function Prev(d: Date): (r: Date)
    requires Valid(d)
    ensures Valid(r) && Before(r, d)
  {
    if d.day > 1 then Date(d.year, d.month, d.day - 1)
    else if d.month > 1 then Date(d.year, d.month - 1, DaysInMonth(d.year, d.month - 1))
    else Date(d.year - 1, 12, 31)
  }

  /** Next and Prev undo each other. */
  lemma NextPrev(d: Date)
    requires Valid(d)
    ensures Prev(Next(d)) == d
    ensures Next(Prev(d)) == d
  {
  }

  /** Days from 0000-03-01 to the first of March of year y + 1, less the days of
      March..December of year 0; the year part of the closed form of the day count. */
  function YearBase(y: int): int {
    365 * y + y / 4 - y / 100 + y / 400
  }

  /** Days from the first of March to the first of month mp, months counted from March = 0. */
  function MonthBase(mp: int): (n: int)
    requires 0 <= mp < 12
    ensures 0 <= n <= 337
  {
    (153 * mp + 2) / 5
  }

  /** The year with January and February counted as months 11 and 12 of the year before. */
  function ShiftedYear(year: int, month: int): int {
    year - (if month <= 2 then 1 else 0)
  }

  /** The month counted from March = 0. */
  function MarchMonth(month: int): (mp: int)
    requires 1 <= month <= 12
    ensures 0 <= mp < 12
  {
    month + (if month > 2 then -3 else 9)
  }

  /** Days since 1970-01-01 by Howard Hinnant's days_from_civil, with the 400-year
      era taken as the floor of the shifted year divided by 400. Defined for every
      month 1..12 and any day number; day numbers past the month's end run on into
      the next month. */
  function DaysFromCivil(year: int, month: int, day: int): (n: int)
    requires 1 <= month <= 12
    ensures n == YearBase(ShiftedYear(year, month)) + MonthBase(MarchMonth(month)) + day - 1 - 719468
  {
    var y := ShiftedYear(year, month);
    var era := y / 400;
    var yoe := y - era * 400;
    var mp := MarchMonth(month);
    var doy := MonthBase(mp) + day - 1;
    var doe := yoe * 365 + yoe / 4 - yoe / 100 + doy;
    era * 146097 + doe - 719468
  }

  function Days(d: Date): int
    requires 1 <= d.month <= 12
  {
    DaysFromCivil(d.year, d.month, d.day)
  }

  /** A year adds 366 days when it is a leap year and 365 otherwise. */
  lemma YearBaseStep(y: int)
    ensures YearBase(y) - YearBase(y - 1) == if IsLeap(y) then 366 else 365
  {
    DivisorSteps(y);
  }

  /** How y / 4, y / 100 and y / 400 change from y - 1 to y. */
  lemma DivisorSteps(y: int)
    ensures y / 4 - (y - 1) / 4 == if y % 4 == 0 then 1 else 0
    ensures y / 100 - (y - 1) / 100 == if y % 100 == 0 then 1 else 0
    ensures y / 400 - (y - 1) / 400 == if y % 400 == 0 then 1 else 0
    ensures y % 400 == 0 ==> y % 100 == 0
    ensures y % 100 == 0 ==> y % 4 == 0
  {
  }

  lemma {:induction false} YearBaseMonotone(a: int, b: int)
    requires a <= b
    ensures YearBase(a) <= YearBase(b)
    decreases b - a
  {
    if a < b {
      YearBaseStep(a + 1);
      YearBaseMonotone(a + 1, b);
    }
  }

  /** The day count of the epoch. */
  lemma DaysEpoch()
    ensures Days(Date(1970, 1, 1)) == 0
  {
  }

  /** Consecutive calendar days have consecutive day counts, across month, year
      and leap-day boundaries and for every year. */
  lemma DaysNext(d: Date)
    requires Valid(d)
    ensures Days(Next(d)) == Days(d) + 1
  {
    if d.day == DaysInMonth(d.year, d.month) {
      if d.month == 2 {
        FebruaryEnds(d.year);
      } else if d.month < 12 {
        MonthEnds(d.year, d.month);
      }
    }
  }

  /** 1 March follows the last day of February. */
  lemma FebruaryEnds(y: int)
    ensures DaysFromCivil(y, 3, 1) == DaysFromCivil(y, 2, DaysInMonth(y, 2)) + 1
  {
    YearBaseStep(y);
  }

  /** The first of a month follows the last day of the month before, outside February. */
  lemma MonthEnds(y: int, m: int)
    requires 1 <= m < 12 && m != 2
    ensures DaysFromCivil(y, m + 1, 1) == DaysFromCivil(y, m, DaysInMonth(y, m)) + 1
  {
    MonthBaseGap(y, m);
  }

  /** Within one shifted year, month mp + 1 starts where month mp ends. */
  lemma MonthBaseGap(y: int, month: int)
    requires 1 <= month <= 12 && month != 2
    ensures MarchMonth(month) < 11
    ensures MonthBase(MarchMonth(month) + 1) == MonthBase(MarchMonth(month)) + DaysInMonth(y, month)
  {
  }

  /** Every date of a year, even one with a day number past its month's end, lies
      between that year's first and last day. */
  lemma DaysWithinYear(d: Date)
    requires 1 <= d.month <= 12 && 1 <= d.day <= 31
    ensures Days(Date(d.year, 1, 1)) <= Days(d) <= Days(Date(d.year, 12, 31))
  {
    if d.month <= 2 {
      YearBaseStep(d.year);
    }
  }

  /** New Year's Day comes later each year. */
  lemma YearStartsOrder(a: int, b: int)
    requires a < b
    ensures Days(Date(a, 12, 31)) < Days(Date(b, 1, 1))
  {
    YearBaseMonotone(a, b - 1);
  }

  /** Within one year, a date of an earlier month comes first. */
  lemma MonthsOrder(a: Date, b: Date)
    requires Valid(a) && Valid(b) && a.year == b.year && a.month < b.month
    ensures Days(a) < Days(b)
  {
    if a.month <= 2 < b.month {
      YearBaseStep(a.year);
    } else {
      MonthBaseGap(a.year, a.month);
    }
  }

  /** The day count is strictly increasing in calendar order. */
  lemma DaysOrder(a: Date, b: Date)
    requires Valid(a) && Valid(b) && Before(a, b)
    ensures Days(a) < Days(b)
  {
    if a.year < b.year {
      DaysWithinYear(a);
      DaysWithinYear(b);
      YearStartsOrder(a.year, b.year);
    } else if a.month < b.month {
      MonthsOrder(a, b);
    }
  }

  /** A date of month 1..12 with day number 1..31 counts from the epoch
      (non-negative) exactly when its year is 1970 or later. */
  lemma DaysSign(year: int, month: int, day: int)
    requires 1 <= month <= 12 && 1 <= day <= 31
    ensures DaysFromCivil(year, month, day) >= 0 <==> year >= 1970
  {
    DaysWithinYear(Date(year, month, day));
    if year >= 1970 {
      YearBaseMonotone(1969, year - 1);
    } else {
      YearBaseMonotone(year, 1969);
    }
  }

  /** Distinct valid dates have distinct day counts. */
  lemma DaysInjective(a: Date, b: Date)
    requires Valid(a) && Valid(b) && Days(a) == Days(b)
    ensures a == b
  {
    if Before(a, b) { DaysOrder(a, b); }
    else if Before(b, a) { DaysOrder(b, a); }
  }

  /** The date k days after d (before d when k is negative). */
  function Shift(d: Date, k: int): (r: Date)
    requires Valid(d)
    ensures Valid(r)
    ensures Days(r) == Days(d) + k
    decreases if k >= 0 then k else -k
  {
    if k == 0 then d
    else if k > 0 then
      DaysNext(d);
      Shift(Next(d), k - 1)
    else
      NextPrev(d);
      DaysNext(Prev(d));
      Shift(Prev(d), k + 1)
  }

  /** Shifting is determined by the day count alone: the shifted date is the only
      valid date with that count. */
  lemma ShiftUnique(d: Date, k: int, e: Date)
    requires Valid(d) && Valid(e)
    ensures Days(e) == Days(d) + k <==> e == Shift(d, k)
  {
    if Days(e) == Days(d) + k {
      DaysInjective(e, Shift(d, k));
    }
  }

  /** Shifting twice is shifting by the sum. */
  lemma ShiftCompose(d: Date, a: int, b: int)
    requires Valid(d)
    ensures Shift(Shift(d, a), b) == Shift(d, a + b)
  {
    var e := Shift(d, a);
    var f := Shift(e, b);
    DaysInjective(f, Shift(d, a + b));
  }
}
