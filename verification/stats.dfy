// The statistics page's aggregations over saved progress entries
// (apps/web/src/lib/stats.js): the reset filter, the daily streak, per-kind
// totals, the daily trend and the best daily results.
module Stats {
  import opened Results
  import Text
  import Calendar
  import Ymd

  /** The fields of a saved entry the statistics read. A string field is None when
      absent or not a string; a number field is None when absent or not a finite number. */
  datatype Entry = Entry(
    kind: Option<string>,
    updatedAt: Option<string>,
    solvedAt: Option<string>,
    dateYmd: Option<string>,
    timeMs: Option<int>,
    hintCount: Option<int>,
    moveCount: Option<int>)

  /** An element of the entries list: null (or undefined), another non-object, or an object. */
  datatype Item = Null | Primitive | Object(entry: Entry)

  // ---------------------------------------------------------------------
  // String order

  /** JavaScript's `a < b` on strings: lexicographic by character, a proper prefix first. */
  predicate Less(a: string, b: string)
    decreases |a|
  {
    if |a| == 0 then |b| > 0
    else if |b| == 0 then false
    else if a[0] != b[0] then a[0] < b[0]
    else Less(a[1..], b[1..])
  }

  lemma {:induction false} LessIrreflexive(a: string)
    ensures !Less(a, a)
    decreases |a|
  {
    if |a| > 0 {
      LessIrreflexive(a[1..]);
    }
  }

  lemma {:induction false} LessTransitive(a: string, b: string, c: string)
    requires Less(a, b) && Less(b, c)
    ensures Less(a, c)
    decreases |a|
  {
    if |a| > 0 && a[0] == b[0] && b[0] == c[0] {
      LessTransitive(a[1..], b[1..], c[1..]);
    }
  }

  /** Any two different strings are ordered one way or the other. */
  lemma {:induction false} LessTotal(a: string, b: string)
    ensures a == b || Less(a, b) || Less(b, a)
    decreases |a|
  {
    if |a| > 0 && |b| > 0 && a[0] == b[0] {
      LessTotal(a[1..], b[1..]);
      if a[1..] == b[1..] {
        assert a == [a[0]] + a[1..] && b == [b[0]] + b[1..];
      }
    }
  }

  /** `a >= b`. */
  predicate AtLeast(a: string, b: string) { !Less(a, b) }

  // ---------------------------------------------------------------------
  // shouldIncludeEntry

  /** A reset time that is null, absent or empty means "no reset". */
  predicate NoReset(resetAt: Option<string>) { resetAt.None? || resetAt.value == "" }

  /** A time stamp that is a non-empty string at or after the reset. */
  predicate Since(at: Option<string>, reset: string) {
    at.Some? && at.value != "" && AtLeast(at.value, reset)
  }

  /** shouldIncludeEntry: does the entry count after the statistics reset? */
  function ShouldInclude(item: Item, resetAt: Option<string>): (b: bool)
    ensures NoReset(resetAt) ==> b
    ensures !NoReset(resetAt) && !item.Object? ==> !b
    ensures !NoReset(resetAt) && item.Object? ==>
      (b <==> Since(item.entry.updatedAt, resetAt.value) || Since(item.entry.solvedAt, resetAt.value))
  {
    if NoReset(resetAt) then true
    else if !item.Object? then false
    else
      var updatedAt := if item.entry.updatedAt.Some? then item.entry.updatedAt.value else "";
      var solvedAt := if item.entry.solvedAt.Some? then item.entry.solvedAt.value else "";
      (updatedAt != "" && AtLeast(updatedAt, resetAt.value)) || (solvedAt != "" && AtLeast(solvedAt, resetAt.value))
  }

  /** An earlier reset keeps every entry a later one keeps. */
  lemma IncludeMonotone(item: Item, earlier: string, later: string)
    requires earlier != "" && AtLeast(later, earlier)
    requires ShouldInclude(item, Some(later))
    ensures ShouldInclude(item, Some(earlier))
  {
    LessTotal(earlier, later);
    if item.Object? {
      var e := item.entry;
      if Since(e.updatedAt, later) {
        if Less(e.updatedAt.value, earlier) && earlier != later { LessTransitive(e.updatedAt.value, earlier, later); }
      } else {
        if Less(e.solvedAt.value, earlier) && earlier != later { LessTransitive(e.solvedAt.value, earlier, later); }
      }
    }
  }

  // ---------------------------------------------------------------------
  // computeDailyStreak

  /**
   * The cursor's previous day: an error exactly when the cursor is not a
   * date, and otherwise the date one day earlier, within four-digit years.
   */
  function Yesterday(cursor: string): (r: Result<string, Ymd.YmdError>)
    ensures r.Err? <==> Ymd.Parse(cursor).None?
    ensures Ymd.Parse(cursor).Some? && 1000 <= Calendar.Shift(Ymd.Parse(cursor).value, -1).year <= 9999 ==>
      r.Ok? && Ymd.Names(r.value, Calendar.Days(Ymd.Parse(cursor).value) - 1)
  {
    if Ymd.Parse(cursor).Some? && 1000 <= Calendar.Shift(Ymd.Parse(cursor).value, -1).year <= 9999 then
      Ymd.AddDaysCount(cursor, Ymd.Parse(cursor).value, -1);
      Ymd.AddDays(cursor, -1)
    else
      Ymd.AddDays(cursor, -1)
  }

  /** The streak loop from a cursor with `budget` iterations left, stepping back
      with `step`. A cursor that is solved is always stepped back, even on the
      last iteration, so a failed step fails the whole computation. */
  function Walk(step: string -> Result<string, Ymd.YmdError>, solved: set<string>, cursor: string, budget: nat): (r: Result<nat, Ymd.YmdError>)
    ensures r.Ok? ==> r.value <= budget
    ensures r.Ok? && r.value > 0 ==> cursor in solved
    ensures budget == 0 || cursor !in solved ==> r == Ok(0)
    decreases budget
  {
    if budget == 0 || cursor !in solved then Ok(0)
    else
      match step(cursor)
      case Err(e) => Err(e)
      case Ok(prev) =>
        match Walk(step, solved, prev, budget - 1)
        case Err(e) => Err(e)
        case Ok(n) => Ok(n + 1)
  }

  /** The loop of computeDailyStreak, which steps back one day at a time; an
      unreadable solved date fails it. */
  function Streak(solved: set<string>, cursor: string, budget: nat): (r: Result<nat, Ymd.YmdError>)
    ensures r.Ok? ==> r.value <= budget
    ensures budget == 0 || cursor !in solved ==> r == Ok(0)
  {
    Walk(Yesterday, solved, cursor, budget)
  }

  const DefaultMaxDays: nat := 3660

  /** computeDailyStreak; a maxDays of zero or less runs no iteration. */
  function ComputeDailyStreak(solved: set<string>, today: string, maxDays: int): (r: Result<nat, Ymd.YmdError>)
    ensures r.Ok? ==> r.value <= (if maxDays > 0 then maxDays else 0)
    ensures today !in solved ==> r == Ok(0)
  {
    var budget := if maxDays > 0 then maxDays else 0;
    Streak(solved, today, budget)
  }

  /** A valid date no earlier than 1000-01-01 has a four-digit year or more. */
  lemma YearFromDays(e: Calendar.Date)
    requires Calendar.Valid(e) && Calendar.Days(e) >= Calendar.Days(Calendar.Date(1000, 1, 1))
    ensures e.year >= 1000
  {
    if e.year < 1000 {
      Calendar.DaysOrder(e, Calendar.Date(1000, 1, 1));
    }
  }

  /** A date before d is in no later year. */
  lemma YearNotAfter(e: Calendar.Date, d: Calendar.Date)
    requires Calendar.Valid(e) && Calendar.Valid(d) && Calendar.Days(e) <= Calendar.Days(d)
    ensures e.year <= d.year
  {
    if e.year > d.year {
      Calendar.DaysOrder(d, e);
    }
  }

  /** The date i days before d. */
  function Back(d: Calendar.Date, i: int): (r: Calendar.Date)
    requires Calendar.Valid(d)
    ensures Calendar.Valid(r) && Calendar.Days(r) == Calendar.Days(d) - i
  {
    Calendar.Shift(d, -i)
  }

  /** The loop stops at once on an unsolved cursor or an exhausted budget. */
  lemma StreakStop(step: string -> Result<string, Ymd.YmdError>, solved: set<string>, cursor: string, budget: nat)
    requires budget == 0 || cursor !in solved
    ensures Walk(step, solved, cursor, budget) == Ok(0)
  {
  }

  /** One iteration: a solved cursor counts one more than the walk from its previous day. */
  lemma StreakMove(step: string -> Result<string, Ymd.YmdError>, solved: set<string>, cursor: string, prev: string, budget: nat)
    requires budget > 0 && cursor in solved && step(cursor) == Ok(prev)
    ensures var r := Walk(step, solved, prev, budget - 1);
      Walk(step, solved, cursor, budget) == if r.Ok? then Ok(r.value + 1) else r
  {
  }

  /** Along a chain of texts each of which steps back to the next, the walk
      counts the solved texts at the head of the chain. */
  lemma {:induction false} StreakAlong(step: string -> Result<string, Ymd.YmdError>, solved: set<string>, ws: seq<string>, budget: nat)
    requires |ws| == budget + 1
    requires forall i :: 0 <= i < budget ==> step(ws[i]) == Ok(ws[i + 1])
    ensures Walk(step, solved, ws[0], budget).Ok?
    ensures var n := Walk(step, solved, ws[0], budget).value;
      (forall i :: 0 <= i < n ==> ws[i] in solved) && (n < budget ==> ws[n] !in solved)
    decreases budget
  {
    if budget == 0 || ws[0] !in solved {
      StreakStop(step, solved, ws[0], budget);
    } else {
      StreakMove(step, solved, ws[0], ws[1], budget);
      StreakAlong(step, solved, ws[1..], budget - 1);
    }
  }

  /** From the date d, the streak counts the solved days going back from d: all of
      the first n are solved, and the next one is not unless the budget ran out.
      The window must stay in four-digit years, where dates are written in the
      shape they are read in. */
  lemma StreakCounts(solved: set<string>, d: Calendar.Date, budget: nat)
    requires Calendar.Valid(d) && d.year <= 9999
    requires Calendar.Days(d) - budget >= Calendar.Days(Calendar.Date(1000, 1, 1))
    ensures Streak(solved, Ymd.Format(d), budget).Ok?
    ensures var n := Streak(solved, Ymd.Format(d), budget).value;
      (forall i :: 0 <= i < n ==> Ymd.Format(Back(d, i)) in solved)
      && (n < budget ==> Ymd.Format(Back(d, n)) !in solved)
  {
    var ws := seq(budget + 1, i requires 0 <= i <= budget => Ymd.Format(Back(d, i)));
    forall i | 0 <= i < budget ensures Yesterday(ws[i]) == Ok(ws[i + 1]) {
      var e := Back(d, i);
      YearFromDays(e);
      YearNotAfter(e, d);
      Ymd.AddDaysOfFormat(e, -1);
      Calendar.ShiftCompose(d, -i, -1);
    }
    StreakAlong(Yesterday, solved, ws, budget);
    assert Back(d, 0) == d;
    assert ws[0] == Ymd.Format(d);
    var n := Walk(Yesterday, solved, ws[0], budget).value;
    forall i | 0 <= i < n ensures Ymd.Format(Back(d, i)) in solved {
      assert ws[i] in solved;
    }
    if n < budget {
      assert ws[n] !in solved;
    }
  }

  /** The streak is exactly k when the first k days back from d are solved and
      the next one is not. */
  lemma StreakExact(solved: set<string>, d: Calendar.Date, budget: nat, k: nat)
    requires Calendar.Valid(d) && d.year <= 9999
    requires Calendar.Days(d) - budget >= Calendar.Days(Calendar.Date(1000, 1, 1))
    requires k < budget
    requires forall i :: 0 <= i < k ==> Ymd.Format(Back(d, i)) in solved
    requires Ymd.Format(Back(d, k)) !in solved
    ensures Streak(solved, Ymd.Format(d), budget) == Ok(k)
  {
    StreakCounts(solved, d, budget);
    var r := Streak(solved, Ymd.Format(d), budget);
    if r.value < k {
      assert false;
    } else if r.value > k {
      assert false;
    }
  }

  // ---------------------------------------------------------------------
  // summarizeByKind

  datatype KindCount = KindCount(total: nat, solved: nat)
  datatype Summary = Summary(daily: KindCount, seed: KindCount, custom: KindCount)

  const Kinds: seq<string> := ["daily", "seed", "custom"]

  predicate Solved(e: Entry) { e.solvedAt.Some? && e.solvedAt.value != "" }

  /** The entry is counted under kind k. */
  predicate Counted(item: Item, resetAt: Option<string>, k: string) {
    item.Object? && ShouldInclude(item, resetAt) && item.entry.kind == Some(k)
  }

  /** Reference counts: included entries of kind k, and those of them solved. */
  function CountKind(items: seq<Item>, resetAt: Option<string>, k: string): nat {
    if |items| == 0 then 0
    else
      var here := if Counted(items[0], resetAt, k) then 1 else 0;
      here + CountKind(items[1..], resetAt, k)
  }

  function CountSolved(items: seq<Item>, resetAt: Option<string>, k: string): (n: nat)
    ensures n <= CountKind(items, resetAt, k)
  {
    if |items| == 0 then 0
    else
      var here := if Counted(items[0], resetAt, k) && Solved(items[0].entry) then 1 else 0;
      here + CountSolved(items[1..], resetAt, k)
  }

  function Bump(c: KindCount, solved: bool): KindCount {
    KindCount(c.total + 1, c.solved + if solved then 1 else 0)
  }

  /** One loop iteration on an object entry that passed the filter. */
  function Tally(s: Summary, e: Entry): Summary {
    if e.kind == Some("daily") then s.(daily := Bump(s.daily, Solved(e)))
    else if e.kind == Some("seed") then s.(seed := Bump(s.seed, Solved(e)))
    else if e.kind == Some("custom") then s.(custom := Bump(s.custom, Solved(e)))
    else s
  }

  /** The counts of one kind in a summary. */
  function CountOf(s: Summary, k: string): KindCount {
    if k == "daily" then s.daily else if k == "seed" then s.seed else s.custom
  }

  function Start(): Summary {
    Summary(KindCount(0, 0), KindCount(0, 0), KindCount(0, 0))
  }

  /** summarizeByKind with null entries skipped, as the sibling aggregations skip
      them: the loop from acc over items. */
  function SummarizeFrom(items: seq<Item>, resetAt: Option<string>, acc: Summary): (s: Summary)
    ensures forall k :: k in Kinds ==>
      CountOf(s, k).total == CountOf(acc, k).total + CountKind(items, resetAt, k)
      && CountOf(s, k).solved == CountOf(acc, k).solved + CountSolved(items, resetAt, k)
    decreases |items|
  {
    if |items| == 0 then acc
    else
      var next := if items[0].Object? && ShouldInclude(items[0], resetAt) then Tally(acc, items[0].entry) else acc;
      SummarizeFrom(items[1..], resetAt, next)
  }

  /** The per-kind totals: every kind's count is the reference count, so no kind
      has more solved entries than entries. */
  function Summarize(items: seq<Item>, resetAt: Option<string>): (s: Summary)
    ensures forall k :: k in Kinds ==>
      CountOf(s, k) == KindCount(CountKind(items, resetAt, k), CountSolved(items, resetAt, k))
    ensures forall k :: k in Kinds ==> CountOf(s, k).solved <= CountOf(s, k).total
  {
    SummarizeFrom(items, resetAt, Start())
  }

  datatype SummaryError = NullEntry

  /** summarizeByKind as written: `e.kind` is read from a null entry whenever the
      filter lets it through, which it does when there is no reset, and that throws. */
  function SummarizeAsWrittenFrom(items: seq<Item>, resetAt: Option<string>, acc: Summary): (r: Result<Summary, SummaryError>)
    ensures r.Err? <==> NoReset(resetAt) && Null in items
    ensures r.Ok? ==> r.value == SummarizeFrom(items, resetAt, acc)
    decreases |items|
  {
    if |items| == 0 then Ok(acc)
    else if !ShouldInclude(items[0], resetAt) then SummarizeAsWrittenFrom(items[1..], resetAt, acc)
    else if items[0].Null? then Err(NullEntry)
    else
      var next := if items[0].Object? then Tally(acc, items[0].entry) else acc;
      var r := SummarizeAsWrittenFrom(items[1..], resetAt, next);
      assert items == [items[0]] + items[1..];
      r
  }

  function SummarizeAsWritten(items: seq<Item>, resetAt: Option<string>): (r: Result<Summary, SummaryError>)
    ensures r.Err? <==> NoReset(resetAt) && Null in items
    ensures r.Ok? ==> r.value == Summarize(items, resetAt)
  {
    SummarizeAsWrittenFrom(items, resetAt, Start())
  }

  /** The input that shows the difference: one null entry and no reset. */
  lemma SummarizeNullEntry()
    ensures SummarizeAsWritten([Null], None) == Err(NullEntry)
    ensures Summarize([Null], None) == Start()
  {
    assert Null in [Null];
    assert CountKind([Null], None, "daily") == 0;
  }

  // ---------------------------------------------------------------------
  // buildDailyTrend

  /** An entry the trend keys by its date: an included daily with a non-empty date. */
  predicate Dated(item: Item, resetAt: Option<string>) {
    item.Object? && item.entry.kind == Some("daily") && ShouldInclude(item, resetAt)
    && item.entry.dateYmd.Some? && item.entry.dateYmd.value != ""
  }

  /** A dated entry for the date k. */
  predicate DatedAt(item: Item, resetAt: Option<string>, k: string) {
    Dated(item, resetAt) && item.entry.dateYmd.value == k
  }

  /** Reference definition: the index of the last dated entry for the date k. */
  function LastDated(items: seq<Item>, resetAt: Option<string>, k: string): (r: Option<nat>)
    ensures r.None? <==> forall i :: 0 <= i < |items| ==> !DatedAt(items[i], resetAt, k)
    ensures r.Some? ==> r.value < |items| && DatedAt(items[r.value], resetAt, k)
    ensures r.Some? ==> forall j :: r.value < j < |items| ==> !DatedAt(items[j], resetAt, k)
    decreases |items|
  {
    if |items| == 0 then None
    else
      var n := |items| - 1;
      if DatedAt(items[n], resetAt, k) then Some(n)
      else
        assert forall i :: 0 <= i < n ==> items[..n][i] == items[i];
        LastDated(items[..n], resetAt, k)
  }

  /** The date-keyed map of daily entries, built in list order so that a later
      entry for a date replaces an earlier one: it holds exactly the dates some
      entry has, each with the last entry for it. */
  function DailyMap(items: seq<Item>, resetAt: Option<string>): (m: map<string, Entry>)
    ensures forall k :: k in m <==> LastDated(items, resetAt, k).Some?
    ensures forall k :: k in m ==> m[k] == items[LastDated(items, resetAt, k).value].entry
    decreases |items|
  {
    if |items| == 0 then map[]
    else
      var n := |items| - 1;
      var prev := DailyMap(items[..n], resetAt);
      DailyStep(items, resetAt, prev);
      Keep(prev, items[n], resetAt)
  }

  /** One iteration of the map's loop: a dated entry sets its date. */
  function Keep(m: map<string, Entry>, item: Item, resetAt: Option<string>): map<string, Entry> {
    if Dated(item, resetAt) then m[item.entry.dateYmd.value := item.entry] else m
  }

  /** The map of all but the last entry, kept by the last one, is the map of all. */
  lemma DailyStep(items: seq<Item>, resetAt: Option<string>, prev: map<string, Entry>)
    requires |items| > 0
    requires forall k :: k in prev <==> LastDated(items[..|items| - 1], resetAt, k).Some?
    requires forall k :: k in prev ==> prev[k] == items[..|items| - 1][LastDated(items[..|items| - 1], resetAt, k).value].entry
    ensures var m := Keep(prev, items[|items| - 1], resetAt);
      (forall k :: k in m <==> LastDated(items, resetAt, k).Some?)
      && (forall k :: k in m ==> m[k] == items[LastDated(items, resetAt, k).value].entry)
  {
    var n := |items| - 1;
    var m := Keep(prev, items[n], resetAt);
    forall k ensures (k in m <==> LastDated(items, resetAt, k).Some?)
      && (k in m ==> m[k] == items[LastDated(items, resetAt, k).value].entry)
    {
      if !DatedAt(items[n], resetAt, k) {
        assert LastDated(items, resetAt, k) == LastDated(items[..n], resetAt, k);
        if k in m {
          assert items[..n][LastDated(items[..n], resetAt, k).value] == items[LastDated(items[..n], resetAt, k).value];
        }
      }
    }
  }

  /** A day of the trend; a number is None where the source writes null. */
  datatype TrendDay = TrendDay(ymd: string, played: bool, solved: bool,
                               timeMs: Option<int>, hintCount: Option<int>, moveCount: Option<int>)

  /** `Math.max(0, x)` for a finite number, null otherwise. */
  function NonNegative(x: Option<int>): (r: Option<int>)
    ensures r.Some? <==> x.Some?
    ensures r.Some? ==> r.value >= 0 && r.value >= x.value && (x.value >= 0 ==> r.value == x.value)
  {
    if x.Some? then Some(if x.value > 0 then x.value else 0) else None
  }

  /** Every day of a trend is coherent: solved only if played, and numbers are
      non-negative. */
  predicate WellFormedDay(t: TrendDay) {
    (t.solved ==> t.played)
    && (t.timeMs.Some? ==> t.timeMs.value >= 0)
    && (t.hintCount.Some? ==> t.hintCount.value >= 0)
    && (t.moveCount.Some? ==> t.moveCount.value >= 0)
  }

  function DayOf(ymd: string, m: map<string, Entry>): (t: TrendDay)
    ensures WellFormedDay(t)
    ensures t.ymd == ymd && (t.played <==> ymd in m)
    ensures t.solved <==> ymd in m && Solved(m[ymd])
  {
    if ymd in m then
      var e := m[ymd];
      TrendDay(ymd, true, Solved(e), NonNegative(e.timeMs), NonNegative(e.hintCount), NonNegative(e.moveCount))
    else TrendDay(ymd, false, false, None, None, None)
  }

  /** buildDailyTrend: one day for each of the last `days` dates up to today, oldest
      first. Today is read once per day, so a malformed today fails unless days <= 0. */
  function BuildDailyTrend(today: string, days: int, items: seq<Item>, resetAt: Option<string>): (r: Result<seq<TrendDay>, Ymd.YmdError>)
    ensures r.Err? <==> days > 0 && Ymd.Parse(today).None?
    ensures r.Ok? ==> |r.value| == (if days > 0 then days else 0)
    ensures r.Ok? ==> forall j :: 0 <= j < |r.value| ==> r.value[j] == DayAt(today, days, DailyMap(items, resetAt), j)
  {
    if days <= 0 then Ok([])
    else if Ymd.Parse(today).None? then Err(Ymd.BadYmd(Text.Trim(Text.Js, today)))
    else Ok(Window(today, days, DailyMap(items, resetAt)))
  }

  /** The days of the window ending today, oldest first. */
  function Window(today: string, days: nat, m: map<string, Entry>): (ts: seq<TrendDay>)
    requires Ymd.Parse(today).Some?
    ensures |ts| == days
    ensures forall j :: 0 <= j < days ==> ts[j] == DayAt(today, days, m, j)
  {
    seq(days, j requires 0 <= j < days => DayAt(today, days, m, j))
  }

  /** Day j of a window of `days` days ending today: the day of today moved by
      j - (days - 1). */
  function DayAt(today: string, days: int, m: map<string, Entry>, j: int): TrendDay
    requires Ymd.Parse(today).Some?
  {
    DayOf(Ymd.AddDays(today, j - (days - 1)).value, m)
  }

  /** Each day of the trend shows the last daily entry for its date: played when
      there is one, solved when it is solved, with its numbers clamped at zero. */
  lemma TrendDays(today: string, days: int, items: seq<Item>, resetAt: Option<string>, j: nat)
    requires BuildDailyTrend(today, days, items, resetAt).Ok? && j < |BuildDailyTrend(today, days, items, resetAt).value|
    ensures var t := BuildDailyTrend(today, days, items, resetAt).value[j];
      var last := LastDated(items, resetAt, t.ymd);
      WellFormedDay(t)
      && (t.played <==> last.Some?)
      && (last.Some? ==> t.solved == Solved(items[last.value].entry))
      && (last.Some? ==> t.timeMs == NonNegative(items[last.value].entry.timeMs))
  {
  }

  /** Day j of the trend is the day of today moved by j - (days - 1). */
  lemma TrendAt(today: string, days: int, items: seq<Item>, resetAt: Option<string>, j: nat)
    requires days > 0 && j < days && Ymd.Parse(today).Some?
    ensures BuildDailyTrend(today, days, items, resetAt).Ok?
    ensures BuildDailyTrend(today, days, items, resetAt).value[j]
      == DayOf(Ymd.AddDays(today, j - (days - 1)).value, DailyMap(items, resetAt))
    ensures BuildDailyTrend(today, days, items, resetAt).value[j].ymd == Ymd.AddDays(today, j - (days - 1)).value
  {
    DayAtIs(today, days, DailyMap(items, resetAt), j);
  }

  lemma DayAtYmd(today: string, days: int, m: map<string, Entry>, j: int)
    requires Ymd.Parse(today).Some?
    ensures DayAt(today, days, m, j).ymd == Ymd.AddDays(today, j - (days - 1)).value
  {
    DayAtIs(today, days, m, j);
  }

  lemma DayAtIs(today: string, days: int, m: map<string, Entry>, j: int)
    requires Ymd.Parse(today).Some?
    ensures var w := Ymd.AddDays(today, j - (days - 1)).value;
      DayAt(today, days, m, j) == DayOf(w, m) && DayAt(today, days, m, j).ymd == w
  {
  }

  /** The trend's dates are consecutive and end today: day j is today moved by
      j - (days - 1), while the window stays in four-digit years. */
  lemma TrendDates(today: string, days: int, items: seq<Item>, resetAt: Option<string>, j: nat)
    requires days > 0 && j < days && Ymd.Parse(today).Some?
    requires 1000 <= Back(Ymd.Parse(today).value, days - 1).year
    ensures BuildDailyTrend(today, days, items, resetAt).Ok?
    ensures Ymd.Names(BuildDailyTrend(today, days, items, resetAt).value[j].ymd,
      Calendar.Days(Ymd.Parse(today).value) + (j - (days - 1)))
  {
    TrendAt(today, days, items, resetAt, j);
    var d := Ymd.Parse(today).value;
    Ymd.ParsedDate(today, d);
    WindowYears(d, days, j);
    Ymd.AddDaysCount(today, d, j - (days - 1));
  }

  /** A date inside a window that starts in a four-digit year and ends at a date
      of the reader has a four-digit year. */
  lemma WindowYears(d: Calendar.Date, days: int, j: nat)
    requires Calendar.Valid(d) && d.year <= 9999 && days > 0 && j < days
    requires 1000 <= Back(d, days - 1).year
    ensures 1000 <= Calendar.Shift(d, j - (days - 1)).year <= 9999
  {
    var e := Calendar.Shift(d, j - (days - 1));
    YearNotAfter(Back(d, days - 1), e);
    YearNotAfter(e, d);
  }

  // ---------------------------------------------------------------------
  // bestDaily

  datatype Metric = TimeMs | HintCount

  /** A solved, included daily entry. */
  predicate Finished(item: Item, resetAt: Option<string>) {
    item.Object? && item.entry.kind == Some("daily") && ShouldInclude(item, resetAt) && Solved(item.entry)
  }

  function MetricOf(e: Entry, f: Metric): Option<int> {
    NonNegative(match f case TimeMs => e.timeMs case HintCount => e.hintCount)
  }

  /** A finished entry that has the metric. */
  predicate Candidate(item: Item, resetAt: Option<string>, f: Metric) {
    Finished(item, resetAt) && MetricOf(item.entry, f).Some?
  }

  function ValueOf(item: Item, f: Metric): int
    requires item.Object? && MetricOf(item.entry, f).Some?
  {
    MetricOf(item.entry, f).value
  }

  /** The loop of bestDaily for one metric: the index of the first candidate with
      the smallest value. A later candidate replaces the best only when strictly smaller. */
  function BestIndex(items: seq<Item>, resetAt: Option<string>, f: Metric): (r: Option<nat>)
    ensures r.None? <==> forall i :: 0 <= i < |items| ==> !Candidate(items[i], resetAt, f)
    ensures r.Some? ==> r.value < |items| && Candidate(items[r.value], resetAt, f)
    ensures r.Some? ==> forall i :: 0 <= i < |items| && Candidate(items[i], resetAt, f) ==>
      ValueOf(items[r.value], f) <= ValueOf(items[i], f)
    ensures r.Some? ==> forall i :: 0 <= i < r.value && Candidate(items[i], resetAt, f) ==>
      ValueOf(items[r.value], f) < ValueOf(items[i], f)
    decreases |items|
  {
    if |items| == 0 then None
    else
      var n := |items| - 1;
      var p := BestIndex(items[..n], resetAt, f);
      assert forall i :: 0 <= i < n ==> items[..n][i] == items[i];
      if Candidate(items[n], resetAt, f) && (p.None? || ValueOf(items[n], f) < ValueOf(items[p.value], f)) then Some(n)
      else p
  }

  datatype Record = Record(dateYmd: string, value: int)
  datatype Best = Best(fastest: Option<Record>, leastHints: Option<Record>)

  /** The record of the best entry for a metric; the date falls back to "". */
  function BestRecord(items: seq<Item>, resetAt: Option<string>, f: Metric): (r: Option<Record>)
    ensures r.None? <==> forall i :: 0 <= i < |items| ==> !Candidate(items[i], resetAt, f)
    ensures r.Some? ==> r.value.value >= 0
    ensures r.Some? ==> forall i :: 0 <= i < |items| && Candidate(items[i], resetAt, f) ==>
      r.value.value <= ValueOf(items[i], f)
  {
    match BestIndex(items, resetAt, f)
    case None => None
    case Some(k) =>
      var e := items[k].entry;
      Some(Record(if e.dateYmd.Some? then e.dateYmd.value else "", ValueOf(items[k], f)))
  }

  /** bestDaily. */
  function BestDaily(items: seq<Item>, resetAt: Option<string>): (b: Best)
    ensures b.fastest == BestRecord(items, resetAt, TimeMs)
    ensures b.leastHints == BestRecord(items, resetAt, HintCount)
  {
    Best(BestRecord(items, resetAt, TimeMs), BestRecord(items, resetAt, HintCount))
  }

  // ---------------------------------------------------------------------
  // The source's statistics tests

  /** A daily entry with the given date, solved time, time and hint count. */
  function Daily(dateYmd: string, solvedAt: Option<string>, timeMs: Option<int>, hintCount: Option<int>): Item {
    Object(Entry(Some("daily"), None, solvedAt, Some(dateYmd), timeMs, hintCount, None))
  }

  /** A common prefix does not change the order. */
  lemma {:induction false} LessAfterPrefix(p: string, a: string, b: string)
    ensures Less(p + a, p + b) == Less(a, b)
    decreases |p|
  {
    if |p| == 0 {
      assert p + a == a && p + b == b;
    } else {
      assert (p + a)[1..] == p[1..] + a && (p + b)[1..] == p[1..] + b;
      LessAfterPrefix(p[1..], a, b);
    }
  }

  const ResetExample := "2025-12-22T00:00:00.000Z"

  function Stamp(updatedAt: Option<string>, solvedAt: Option<string>): Item {
    Object(Entry(None, updatedAt, solvedAt, None, None, None, None))
  }

  lemma IncludeBefore(updatedAt: string, reset: string)
    requires updatedAt == "2025-12-21T23:59:59.000Z" && reset == ResetExample
    ensures !ShouldInclude(Stamp(Some(updatedAt), None), Some(reset))
  {
    var p, a, b := "2025-12-2", "1T23:59:59.000Z", "2T00:00:00.000Z";
    LessAfterPrefix(p, a, b);
    assert p + a == updatedAt && p + b == reset;
  }

  lemma IncludeAtReset()
    ensures ShouldInclude(Stamp(None, Some(ResetExample)), Some(ResetExample))
  {
    LessIrreflexive(ResetExample);
  }

  lemma IncludeAfter(updatedAt: string, reset: string)
    requires updatedAt == "2025-12-22T00:00:00.001Z" && reset == ResetExample
    ensures ShouldInclude(Stamp(Some(updatedAt), None), Some(reset))
  {
    var p, a, b := "2025-12-22T00:00:00.00", "1Z", "0Z";
    LessAfterPrefix(p, a, b);
    assert p + a == updatedAt && p + b == reset;
  }

  lemma SummarizeExample()
    ensures var s := Summarize([
        Object(Entry(Some("daily"), None, Some("x"), None, None, None, None)),
        Object(Entry(Some("daily"), None, None, None, None, None, None)),
        Object(Entry(Some("seed"), None, Some("x"), None, None, None, None)),
        Object(Entry(Some("custom"), None, None, None, None, None, None))], None);
      s == Summary(KindCount(2, 1), KindCount(1, 1), KindCount(1, 0))
  {
  }

  lemma BestExample(items: seq<Item>)
    requires items == [
      Daily("2025-12-20", Some("x"), Some(9000), Some(3)),
      Daily("2025-12-21", Some("x"), Some(8000), Some(5)),
      Daily("2025-12-22", Some("x"), Some(12000), Some(1))]
    ensures BestDaily(items, None) == Best(Some(Record("2025-12-21", 8000)), Some(Record("2025-12-22", 1)))
  {
    assert items[..1][..0] == [] && items[..2][..1] == items[..1] && items[..2] == items[..3][..2];
    assert BestIndex(items[..1], None, TimeMs) == Some(0);
    assert BestIndex(items[..2], None, TimeMs) == Some(1);
    assert BestIndex(items[..3], None, TimeMs) == Some(1);
    assert BestIndex(items[..1], None, HintCount) == Some(0);
    assert BestIndex(items[..2], None, HintCount) == Some(0);
    assert BestIndex(items[..3], None, HintCount) == Some(2);
    assert items[..3] == items;
  }

  lemma DecemberTexts(a: Calendar.Date, b: Calendar.Date, c: Calendar.Date, e: Calendar.Date)
    requires a == Calendar.Date(2025, 12, 22) && b == Calendar.Date(2025, 12, 21)
    requires c == Calendar.Date(2025, 12, 20) && e == Calendar.Date(2025, 12, 19)
    ensures Ymd.Format(a) == "2025-12-22" && Ymd.Format(b) == "2025-12-21"
    ensures Ymd.Format(c) == "2025-12-20" && Ymd.Format(e) == "2025-12-19"
  {
    Text.DigitChars();
    Ymd.FormatIs(a, "2025-12-22");
    Ymd.FormatIs(b, "2025-12-21");
    Ymd.FormatIs(c, "2025-12-20");
    Ymd.FormatIs(e, "2025-12-19");
  }

  lemma DecemberBacks()
    ensures Back(Calendar.Date(2025, 12, 22), 0) == Calendar.Date(2025, 12, 22)
    ensures Back(Calendar.Date(2025, 12, 22), 1) == Calendar.Date(2025, 12, 21)
    ensures Back(Calendar.Date(2025, 12, 22), 2) == Calendar.Date(2025, 12, 20)
    ensures Back(Calendar.Date(2025, 12, 22), 3) == Calendar.Date(2025, 12, 19)
  {
  }

  lemma SolvedExample(solved: set<string>)
    requires solved == {"2025-12-22", "2025-12-21", "2025-12-20"}
    ensures "2025-12-22" in solved && "2025-12-21" in solved && "2025-12-20" in solved
    ensures "2025-12-19" !in solved
  {
  }

  lemma StreakExample(solved: set<string>, today: string)
    requires solved == {"2025-12-22", "2025-12-21", "2025-12-20"} && today == "2025-12-22"
    ensures ComputeDailyStreak(solved, today, DefaultMaxDays) == Ok(3)
  {
    var d := Calendar.Date(2025, 12, 22);
    DecemberTexts(Calendar.Date(2025, 12, 22), Calendar.Date(2025, 12, 21), Calendar.Date(2025, 12, 20), Calendar.Date(2025, 12, 19));
    DecemberBacks();
    SolvedExample(solved);
    assert Ymd.Format(Back(d, 3)) !in solved;
    forall i | 0 <= i < 3 ensures Ymd.Format(Back(d, i)) in solved {
      assert i == 0 || i == 1 || i == 2;
    }
    StreakExact(solved, d, DefaultMaxDays, 3);
  }

  lemma TrendMapExample(items: seq<Item>)
    requires items == [
      Object(Entry(Some("daily"), None, Some("x"), Some("2025-12-21"), Some(1000), Some(2), Some(3))),
      Object(Entry(Some("daily"), None, None, Some("2025-12-22"), None, None, None))]
    ensures DailyMap(items, None) == map["2025-12-21" := items[0].entry, "2025-12-22" := items[1].entry]
  {
    assert items[..1][..0] == [] && items[..2][..1] == items[..1] && items[..2] == items;
  }

  lemma TrendDaysExample(today: string)
    requires today == "2025-12-22"
    ensures Ymd.AddDays(today, 0 - (2 - 1)) == Ok("2025-12-21")
    ensures Ymd.AddDays(today, 1 - (2 - 1)) == Ok("2025-12-22")
  {
    var d := Calendar.Date(2025, 12, 22);
    DecemberTexts(Calendar.Date(2025, 12, 22), Calendar.Date(2025, 12, 21), Calendar.Date(2025, 12, 20), Calendar.Date(2025, 12, 19));
    DecemberBacks();
    Ymd.AddDaysOfFormat(d, -1);
    Ymd.AddDaysOfFormat(d, 0);
  }

  lemma TrendExample(items: seq<Item>, today: string)
    requires items == [
      Object(Entry(Some("daily"), None, Some("x"), Some("2025-12-21"), Some(1000), Some(2), Some(3))),
      Object(Entry(Some("daily"), None, None, Some("2025-12-22"), None, None, None))]
    requires today == "2025-12-22"
    ensures var r := BuildDailyTrend(today, 2, items, None);
      r.Ok? && |r.value| == 2
      && r.value[0].ymd == "2025-12-21" && r.value[0].played && r.value[0].solved
      && r.value[1].ymd == "2025-12-22" && r.value[1].played && !r.value[1].solved
  {
    TrendDaysExample(today);
    TrendMapExample(items);
    TrendAt(today, 2, items, None, 0);
    TrendAt(today, 2, items, None, 1);
    ExampleDays(BuildDailyTrend(today, 2, items, None).value, DailyMap(items, None), items);
  }

  lemma ExampleDays(ts: seq<TrendDay>, m: map<string, Entry>, items: seq<Item>)
    requires items == [
      Object(Entry(Some("daily"), None, Some("x"), Some("2025-12-21"), Some(1000), Some(2), Some(3))),
      Object(Entry(Some("daily"), None, None, Some("2025-12-22"), None, None, None))]
    requires m == map["2025-12-21" := items[0].entry, "2025-12-22" := items[1].entry]
    requires |ts| == 2 && ts[0] == DayOf("2025-12-21", m) && ts[1] == DayOf("2025-12-22", m)
    ensures ts[0].ymd == "2025-12-21" && ts[0].played && ts[0].solved
    ensures ts[1].ymd == "2025-12-22" && ts[1].played && !ts[1].solved
  {
  }
}
