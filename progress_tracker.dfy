/** `components/ActionProgressTracker.tsx`: day keys, recurrence applicability, completion
    lookup, the date ranges the tracker shows, per-action progress, the current streak and the
    heatmap intensity. The time "now" is a parameter wherever the component reads the clock. */
module ProgressTracker {
  import opened Wrappers
  import opened Calendar
  import opened Strings
  import opened Seqs
  import opened Types
  import opened Rounding

  // ---------------------------------------------------------------------------------------
  // Day keys

  /** `formatDate`: `YYYY-MM-DD` from the local calendar fields, the year as `String(year)`
      and month and day padded to two digits. */
  function FormatDate(t: Time): string {
    var c := CivilFromDays(DayOf(t));
    IntToString(c.year) + "-" + Pad2(c.month) + "-" + Pad2(c.day)
  }

  /** The key is the year's decimal form, a dash, two digits, a dash and two digits. */
  lemma FormatDateShape(t: Time)
    ensures var c := CivilFromDays(DayOf(t)); var key := FormatDate(t); var n := |key|;
      && n == |IntToString(c.year)| + 6
      && key[..n - 6] == IntToString(c.year)
      && key[n - 6] == '-' && key[n - 3] == '-'
      && IsDigit(key[n - 5]) && IsDigit(key[n - 4]) && IsDigit(key[n - 2]) && IsDigit(key[n - 1])
  {
    var c := CivilFromDays(DayOf(t));
    var y := IntToString(c.year);
    var key := FormatDate(t);
    assert key == y + "-" + Pad2(c.month) + "-" + Pad2(c.day);
  }

  /** Two timestamps share a day key exactly when they fall on the same local day. */
  lemma FormatDateInjective(t1: Time, t2: Time)
    ensures FormatDate(t1) == FormatDate(t2) <==> DayOf(t1) == DayOf(t2)
  {
    if FormatDate(t1) == FormatDate(t2) {
      FormatDateShape(t1);
      FormatDateShape(t2);
      var c1, c2 := CivilFromDays(DayOf(t1)), CivilFromDays(DayOf(t2));
      var k := FormatDate(t1);
      var n := |k|;
      assert IntToString(c1.year) == k[..n - 6] == IntToString(c2.year);
      IntToStringInjective(c1.year, c2.year);
      var y := IntToString(c1.year);
      assert k == y + "-" + Pad2(c1.month) + "-" + Pad2(c1.day);
      assert k == y + "-" + Pad2(c2.month) + "-" + Pad2(c2.day);
      assert Pad2(c1.month) == k[n - 5..n - 3] == Pad2(c2.month);
      assert Pad2(c1.day) == k[n - 2..] == Pad2(c2.day);
      Pad2Injective(c1.month, c2.month);
      Pad2Injective(c1.day, c2.day);
      CivilInjective(DayOf(t1), DayOf(t2));
    }
  }

  // ---------------------------------------------------------------------------------------
  // Recurrence applicability

  /** The `switch (recurrence.type)` of `isDateApplicable`: whether the rule allows weekday
      `w`. A weekly rule without a day and a custom rule without a list allow nothing. */
  function KindAllows(r: Recurrence, w: int): bool {
    match r.kind
    case Daily => true
    case Weekdays => 1 <= w <= 5
    case Weekly => r.weeklyDay == Some(w)
    case Custom => r.customDays.Some? && w in r.customDays.value
    case Unrecognised => false
  }

  /** `isDateApplicable`: never before the action's creation instant (a full timestamp
      comparison), otherwise whatever the rule says about the date's weekday. */
  function IsDateApplicable(date: Time, r: Recurrence, createdAt: Time): (ok: bool)
    ensures Ms(date) < Ms(createdAt) ==> !ok
    ensures ok ==> r.kind != Unrecognised
  {
    if Ms(date) < Ms(createdAt) then false else KindAllows(r, Weekday(DayOf(date)))
  }

  /** `isApplicable`. */
  function IsApplicable(a: Action, date: Time): bool {
    IsDateApplicable(date, a.recurrence, a.createdAt)
  }

  /** Once the action exists, applicability repeats every week. */
  lemma ApplicableWeekly(date: Time, r: Recurrence, createdAt: Time, k: nat)
    requires Ms(createdAt) <= Ms(date)
    ensures IsDateApplicable(AddDays(date, 7 * k), r, createdAt) == IsDateApplicable(date, r, createdAt)
  {
    WeekdayShift(DayOf(date), k);
  }

  /** 1 when the rule allows weekday `w`, else 0. */
  function AllowsCount(r: Recurrence, w: int): nat {
    if KindAllows(r, w) then 1 else 0
  }

  /** Number of weekdays the rule allows in a week. */
  function DaysPerWeek(r: Recurrence): nat {
    AllowsCount(r, 0) + AllowsCount(r, 1) + AllowsCount(r, 2) + AllowsCount(r, 3)
    + AllowsCount(r, 4) + AllowsCount(r, 5) + AllowsCount(r, 6)
  }

  /** How many days a week each kind of rule selects. */
  lemma DaysPerWeekByKind(r: Recurrence)
    ensures r.kind == Daily ==> DaysPerWeek(r) == 7
    ensures r.kind == Weekdays ==> DaysPerWeek(r) == 5
    ensures r.kind == Weekly ==> DaysPerWeek(r) == if r.weeklyDay.Some? && IsDayNumber(r.weeklyDay.value) then 1 else 0
    ensures r.kind == Custom && (r.customDays.None? || r.customDays == Some([])) ==> DaysPerWeek(r) == 0
    ensures r.kind == Unrecognised ==> DaysPerWeek(r) == 0
  {
  }

  /** Number of applicable days among `n` consecutive days starting at `start`. */
  function CountApplicable(r: Recurrence, createdAt: Time, start: Time, n: nat): nat {
    if n == 0 then 0
    else CountApplicable(r, createdAt, start, n - 1)
         + (if IsDateApplicable(AddDays(start, n - 1), r, createdAt) then 1 else 0)
  }

  /** The allowances of the first `n` weekdays of a week that starts on weekday `w`. */
  function WeekFrom(r: Recurrence, w: int, n: nat): nat {
    if n == 0 then 0 else WeekFrom(r, w, n - 1) + AllowsCount(r, (w + n - 1) % 7)
  }

  /** A whole week from weekday `w`, written out day by day. */
  lemma WeekFromSeven(r: Recurrence, w: int)
    ensures WeekFrom(r, w, 7)
         == AllowsCount(r, w % 7) + AllowsCount(r, (w + 1) % 7) + AllowsCount(r, (w + 2) % 7)
          + AllowsCount(r, (w + 3) % 7) + AllowsCount(r, (w + 4) % 7) + AllowsCount(r, (w + 5) % 7)
          + AllowsCount(r, (w + 6) % 7)
  {
    assert WeekFrom(r, w, 1) == AllowsCount(r, w % 7);
    assert WeekFrom(r, w, 2) == WeekFrom(r, w, 1) + AllowsCount(r, (w + 1) % 7);
    assert WeekFrom(r, w, 3) == WeekFrom(r, w, 2) + AllowsCount(r, (w + 2) % 7);
    assert WeekFrom(r, w, 4) == WeekFrom(r, w, 3) + AllowsCount(r, (w + 3) % 7);
    assert WeekFrom(r, w, 5) == WeekFrom(r, w, 4) + AllowsCount(r, (w + 4) % 7);
    assert WeekFrom(r, w, 6) == WeekFrom(r, w, 5) + AllowsCount(r, (w + 5) % 7);
  }

  /** The week starting on weekday `w` allows as many days as the week starting on Sunday. */
  lemma RotatedWeek(r: Recurrence, w: int)
    requires 0 <= w < 7
    ensures WeekFrom(r, w, 7) == DaysPerWeek(r)
  {
    WeekFromSeven(r, w);
    if w == 0 {
    } else if w == 1 {
      assert (1 + 6) % 7 == 0;
    } else if w == 2 {
      assert (2 + 5) % 7 == 0 && (2 + 6) % 7 == 1;
    } else if w == 3 {
      assert (3 + 4) % 7 == 0 && (3 + 5) % 7 == 1 && (3 + 6) % 7 == 2;
    } else if w == 4 {
      assert (4 + 3) % 7 == 0 && (4 + 4) % 7 == 1 && (4 + 5) % 7 == 2 && (4 + 6) % 7 == 3;
    } else if w == 5 {
      assert (5 + 2) % 7 == 0 && (5 + 3) % 7 == 1 && (5 + 4) % 7 == 2 && (5 + 5) % 7 == 3 && (5 + 6) % 7 == 4;
    } else {
      assert (6 + 1) % 7 == 0 && (6 + 2) % 7 == 1 && (6 + 3) % 7 == 2 && (6 + 4) % 7 == 3 && (6 + 5) % 7 == 4 && (6 + 6) % 7 == 5;
    }
  }

  /** Any seven consecutive days after the action's creation hold exactly `DaysPerWeek`
      applicable days: every weekday occurs once among them. */
  lemma WeekCount(r: Recurrence, createdAt: Time, start: Time)
    requires Ms(createdAt) <= Ms(start)
    ensures CountApplicable(r, createdAt, start, 7) == DaysPerWeek(r)
  {
    CountByWeekday(r, createdAt, start, 7);
    RotatedWeek(r, Weekday(DayOf(start)));
  }

  /** After the action's creation, day `i` of a span is applicable exactly when the rule allows
      the weekday `i` days after the span's first one. */
  lemma {:induction false} CountByWeekday(r: Recurrence, createdAt: Time, start: Time, n: nat)
    requires Ms(createdAt) <= Ms(start)
    ensures CountApplicable(r, createdAt, start, n) == WeekFrom(r, Weekday(DayOf(start)), n)
    decreases n
  {
    if n > 0 {
      CountByWeekday(r, createdAt, start, n - 1);
      var m := n - 1;
      WeekdayAdd(DayOf(start), m);
      assert DayOf(AddDays(start, m)) == DayOf(start) + m;
    }
  }

  // ---------------------------------------------------------------------------------------
  // Completion lookup

  /** `completions?.some(c => c.date === key && c.completed)`. */
  function HasCompletion(cs: seq<Completion>, key: string): bool {
    if cs == [] then false
    else (cs[0].date == key && cs[0].completed) || HasCompletion(cs[1..], key)
  }

  /** A completed record with the key exists exactly when the scan finds one. */
  lemma {:induction false} HasCompletionIff(cs: seq<Completion>, key: string)
    ensures HasCompletion(cs, key) <==> exists i :: 0 <= i < |cs| && cs[i].date == key && cs[i].completed
  {
    if cs != [] {
      HasCompletionIff(cs[1..], key);
      if exists i :: 0 <= i < |cs| && cs[i].date == key && cs[i].completed {
        var i :| 0 <= i < |cs| && cs[i].date == key && cs[i].completed;
        if i > 0 {
          assert cs[1..][i - 1] == cs[i];
        }
      }
      if HasCompletion(cs[1..], key) {
        var i :| 0 <= i < |cs[1..]| && cs[1..][i].date == key && cs[1..][i].completed;
        assert cs[i + 1] == cs[1..][i];
      }
    }
  }

  /** `isCompleted`: the scan for a completed record keyed on the date's day. */
  function IsCompleted(a: Action, date: Time): bool {
    HasCompletion(a.completions, FormatDate(date))
  }

  /** An action is completed on a date exactly when some record carries the date's key and is
      marked completed; an action without records is never completed. */
  lemma IsCompletedIff(a: Action, date: Time)
    ensures IsCompleted(a, date) <==>
      exists i :: 0 <= i < |a.completions| && a.completions[i].date == FormatDate(date) && a.completions[i].completed
    ensures a.completions == [] ==> !IsCompleted(a, date)
  {
    HasCompletionIff(a.completions, FormatDate(date));
  }

  /** A record added for one day decides nothing about any other day, and a completed record
      makes its own day completed. */
  lemma IsCompletedAfterRecord(a: Action, recordDay: Time, flag: bool, date: Time)
    ensures var b := a.(completions := a.completions + [Completion(FormatDate(recordDay), flag)]);
      IsCompleted(b, date) == if DayOf(date) == DayOf(recordDay) then IsCompleted(a, date) || flag
                              else IsCompleted(a, date)
  {
    FormatDateInjective(date, recordDay);
    HasCompletionSnoc(a.completions, Completion(FormatDate(recordDay), flag), FormatDate(date));
  }

  /** Scanning one more record at the end. */
  lemma {:induction false} HasCompletionSnoc(cs: seq<Completion>, c: Completion, key: string)
    ensures HasCompletion(cs + [c], key) == (HasCompletion(cs, key) || (c.date == key && c.completed))
  {
    if cs != [] {
      assert (cs + [c])[1..] == cs[1..] + [c];
      HasCompletionSnoc(cs[1..], c, key);
    }
  }

  /** Completion depends only on the day, not on the time of day. */
  lemma IsCompletedSameDay(a: Action, t1: Time, t2: Time)
    requires DayOf(t1) == DayOf(t2)
    ensures IsCompleted(a, t1) == IsCompleted(a, t2)
  {
    FormatDateInjective(t1, t2);
  }

  // ---------------------------------------------------------------------------------------
  // Date ranges

  /** The 38 timestamps `getRelevantDates` lists: 30 days back, today and 7 days ahead, all at
      the current time of day. */
  function RelevantDays(today: Time): (dates: seq<Time>)
    ensures |dates| == 38 && dates[30] == today
    ensures forall i :: 0 <= i < 38 ==>
      DayOf(dates[i]) == DayOf(today) + i - 30 && Ms(dates[i]) - Ms(StartOfDay(dates[i])) == Ms(today) - Ms(StartOfDay(today))
    ensures forall i :: 0 <= i < 37 ==> dates[i + 1] == AddDays(dates[i], 1)
  {
    var dates: seq<Time> := seq(38, i => AddDays(today, i - 30));
    dates
  }

  /** `getRelevantDates`. */
  method RelevantDates(today: Time) returns (dates: seq<Time>)
    ensures dates == RelevantDays(today)
  {
    dates := [];
    var i := 30;
    while i > 0
      invariant 0 <= i <= 30
      invariant |dates| == 30 - i
      invariant forall j :: 0 <= j < |dates| ==> dates[j] == AddDays(today, j - 30)
    {
      dates := dates + [AddDays(today, -i)];
      i := i - 1;
    }
    dates := dates + [today];
    i := 1;
    while i <= 7
      invariant 1 <= i <= 8
      invariant |dates| == 30 + i
      invariant forall j :: 0 <= j < |dates| ==> dates[j] == AddDays(today, j - 30)
    {
      dates := dates + [AddDays(today, i)];
      i := i + 1;
    }
  }

  /** The timeframe buttons of the tracker. */
  datatype Timeframe = Week | Month | All

  /** The `filteredDates` test: the gap between the midnights of the date's key and of
      today's key, in milliseconds, lies within the timeframe's window. */
  function InTimeframe(tf: Timeframe, date: Time, today: Time): bool {
    var diff := Ms(StartOfDay(date)) - Ms(StartOfDay(today));
    match tf
    case Week => -7 * MsPerDay <= diff <= 7 * MsPerDay
    case Month => -30 * MsPerDay <= diff <= 7 * MsPerDay
    case All => true
  }

  /** The timeframe windows counted in whole days: a week back to a week ahead, thirty days
      back to a week ahead, or everything. */
  lemma InTimeframeDays(tf: Timeframe, date: Time, today: Time)
    ensures var d := DayOf(date) - DayOf(today);
      InTimeframe(tf, date, today) <==> match tf
        case Week => -7 <= d <= 7
        case Month => -30 <= d <= 7
        case All => true
  {
  }

  function FilterDates(tf: Timeframe, dates: seq<Time>, today: Time): seq<Time> {
    Filter((d: Time) => InTimeframe(tf, d, today), dates)
  }

  /** The midnight of a shifted timestamp is the shifted midnight. */
  lemma StartOfDayAddDays(t: Time, k: int)
    ensures Ms(StartOfDay(AddDays(t, k))) == Ms(StartOfDay(t)) + k * MsPerDay
  {
  }

  /** Every one of the tracker's 38 dates lies within the month window. */
  lemma FilterRelevantMonth(today: Time)
    ensures FilterDates(Month, RelevantDays(today), today) == RelevantDays(today)
  {
    var ds := RelevantDays(today);
    forall i | 0 <= i < |ds| ensures InTimeframe(Month, ds[i], today) {
      StartOfDayAddDays(today, i - 30);
    }
    FilterAll((d: Time) => InTimeframe(Month, d, today), ds);
  }

  /** Of the tracker's 38 dates the week window keeps the last 15: a week back, today and a
      week ahead. */
  lemma FilterRelevantWeek(today: Time)
    ensures FilterDates(Week, RelevantDays(today), today) == RelevantDays(today)[23..]
  {
    var ds := RelevantDays(today);
    var f := (d: Time) => InTimeframe(Week, d, today);
    var before, within := ds[..23], ds[23..];
    forall i | 0 <= i < |before| ensures !f(before[i]) {
      StartOfDayAddDays(today, i - 30);
    }
    forall i | 0 <= i < |within| ensures f(within[i]) {
      StartOfDayAddDays(today, i + 23 - 30);
    }
    assert ds == before + within;
    FilterConcat(f, before, within);
    FilterNone(f, before);
    FilterAll(f, within);
  }

  /** The first and the last day of the month that holds `today` (`new Date(year, month, 1)`
      and `new Date(year, month + 1, 0)`), as day numbers. */
  function MonthFirst(today: Time): int {
    FirstDayOfMonth(DayOf(today))
  }

  function MonthLast(today: Time): int {
    LastDayOfMonth(DayOf(today))
  }

  /** `startDate.setDate(startDate.getDate() - startDate.getDay())`: the Sunday on or before
      day `f`. */
  function SundayOnOrBefore(f: int): (s: int)
    ensures s <= f < s + 7 && Weekday(s) == 0
  {
    f - Weekday(f)
  }

  /** `endDate.setDate(endDate.getDate() + (6 - endDate.getDay()))`: the Saturday on or after
      day `l`. */
  function SaturdayOnOrAfter(l: int): (e: int)
    ensures e - 7 < l <= e && Weekday(e) == 6
  {
    l + (6 - Weekday(l))
  }

  /** The midnights of days `s`..`e`. */
  function DaySpan(s: int, e: int): (dates: seq<Time>)
    requires s <= e
    ensures |dates| == e - s + 1
    ensures forall i :: 0 <= i < |dates| ==> dates[i] == Midnight(s + i)
  {
    seq(e - s + 1, i => Moment(s + i, 0))
  }

  /** The days from the Sunday on or before `f` to the Saturday on or after `l`: consecutive
      midnights in whole weeks, Sunday to Saturday, covering `f`..`l`. */
  function WeekGrid(f: int, l: int): (dates: seq<Time>)
    requires f <= l
    ensures |dates| > 0 && |dates| % 7 == 0
    ensures forall i :: 0 <= i < |dates| ==> dates[i] == Midnight(DayOf(dates[0]) + i)
    ensures Weekday(DayOf(dates[0])) == 0 && Weekday(DayOf(dates[|dates| - 1])) == 6
    ensures DayOf(dates[0]) <= f < DayOf(dates[0]) + 7
    ensures DayOf(dates[|dates| - 1]) - 7 < l <= DayOf(dates[|dates| - 1])
  {
    WholeWeeks(SundayOnOrBefore(f), SaturdayOnOrAfter(l));
    DaySpan(SundayOnOrBefore(f), SaturdayOnOrAfter(l))
  }

  /** The days from a Sunday to a later Saturday make whole weeks. */
  lemma WholeWeeks(s: int, e: int)
    requires s <= e && Weekday(s) == 0 && Weekday(e) == 6
    ensures (e - s + 1) % 7 == 0
  {
    var q := (s + 4) / 7;
    var p := (e + 4) / 7;
    assert s + 4 == 7 * q && e + 4 == 7 * p + 6;
    assert e - s + 1 == 7 * (p - q + 1);
  }

  /** The midnights `getMonthDates` lists: the whole weeks around the month of `today`, which
      hold its first and last day and `today` itself. */
  function MonthGrid(today: Time): (dates: seq<Time>)
    ensures |dates| > 0
    ensures DayOf(dates[0]) <= MonthFirst(today) && MonthLast(today) <= DayOf(dates[|dates| - 1])
    ensures DayOf(dates[0]) <= DayOf(today) <= DayOf(dates[|dates| - 1])
  {
    WeekGrid(MonthFirst(today), MonthLast(today))
  }

  /** The part of `getMonthDates` after the month's first and last day: widen to the Sunday
      before and the Saturday after, then list every midnight in between with the
      `while (current <= endDate)` loop. */
  method WeekDates(firstDay: Time, lastDay: Time) returns (dates: seq<Time>)
    requires StartOfDay(firstDay) == firstDay && StartOfDay(lastDay) == lastDay
    requires DayOf(firstDay) <= DayOf(lastDay)
    ensures dates == WeekGrid(DayOf(firstDay), DayOf(lastDay))
  {
    var startDate := AddDays(firstDay, -Weekday(DayOf(firstDay)));
    var endDate := AddDays(lastDay, 6 - Weekday(DayOf(lastDay)));
    ghost var s, e := SundayOnOrBefore(DayOf(firstDay)), SaturdayOnOrAfter(DayOf(lastDay));
    dates := [];
    var current := startDate;
    while Ms(current) <= Ms(endDate)
      invariant current == Midnight(s + |dates|)
      invariant |dates| <= e - s + 1
      invariant forall i :: 0 <= i < |dates| ==> dates[i] == Midnight(s + i)
      decreases Ms(endDate) - Ms(current)
    {
      dates := dates + [current];
      current := AddDays(current, 1);
    }
  }

  /** `getMonthDates`. */
  method MonthDates(today: Time) returns (dates: seq<Time>)
    ensures dates == MonthGrid(today)
  {
    var firstDay := Midnight(FirstDayOfMonth(DayOf(today)));
    var lastDay := Midnight(LastDayOfMonth(DayOf(today)));
    dates := WeekDates(firstDay, lastDay);
  }

  // ---------------------------------------------------------------------------------------
  // Per-action progress

  /** `{ completed, total, percentage }`. */
  datatype ActionProgress = ActionProgress(completed: nat, total: nat, percentage: nat)

  /** The dates on which the action applies. */
  function ApplicableOn(a: Action): Time -> bool {
    (d: Time) => IsApplicable(a, d)
  }

  /** The dates on whose day the action is completed. */
  function CompletedOn(a: Action): Time -> bool {
    (d: Time) => IsCompleted(a, d)
  }

  /** The progress record of `completed` out of `total` applicable dates: the percentage is
      `Math.round(completed / total * 100)`, and 0 when nothing applies. */
  function ProgressOf(completed: nat, total: nat): (p: ActionProgress)
    requires completed <= total
    ensures p.completed == completed && p.total == total
    ensures p.percentage <= 100
    ensures total == 0 ==> p.percentage == 0
    ensures total > 0 ==> 2 * total * p.percentage <= 200 * completed + total < 2 * total * (p.percentage + 1)
    ensures total > 0 && completed == total ==> p.percentage == 100
    ensures completed == 0 ==> p.percentage == 0
  {
    if total > 0 then
      RoundPercentRange(completed, total);
      ActionProgress(completed, total, RoundPercent(completed, total))
    else ActionProgress(completed, total, 0)
  }

  /** `calculateActionProgress` over the filtered dates: the applicable dates, how many of them
      are completed, and the rounded percentage (0 when nothing applies). */
  function CalculateActionProgress(a: Action, dates: seq<Time>): (p: ActionProgress)
    ensures p.completed <= p.total <= |dates|
    ensures p.percentage <= 100
    ensures p.total == 0 ==> p.percentage == 0
    ensures p.total > 0 ==> 2 * p.total * p.percentage <= 200 * p.completed + p.total < 2 * p.total * (p.percentage + 1)
    ensures p.total > 0 && p.completed == p.total ==> p.percentage == 100
    ensures p.completed == 0 ==> p.percentage == 0
  {
    var applicable := Filter(ApplicableOn(a), dates);
    ProgressOf(|Filter(CompletedOn(a), applicable)|, |applicable|)
  }

  /** No applicable date leaves the total at 0, and only then. */
  lemma TotalZeroIff(a: Action, dates: seq<Time>)
    ensures CalculateActionProgress(a, dates).total == 0 <==> forall i :: 0 <= i < |dates| ==> !IsApplicable(a, dates[i])
  {
    var applicable := Filter(ApplicableOn(a), dates);
    assert CalculateActionProgress(a, dates).total == |applicable|;
    FilterMembers(ApplicableOn(a), dates);
    if exists i :: 0 <= i < |dates| && IsApplicable(a, dates[i]) {
      var i :| 0 <= i < |dates| && IsApplicable(a, dates[i]);
      assert ApplicableOn(a)(dates[i]);
      assert dates[i] in applicable;
    }
  }

  /** Every applicable date completed makes the completed count reach the total, and only
      then. */
  lemma AllCompletedIff(a: Action, dates: seq<Time>)
    ensures var p := CalculateActionProgress(a, dates);
      p.completed == p.total <==> forall i :: 0 <= i < |dates| && IsApplicable(a, dates[i]) ==> IsCompleted(a, dates[i])
  {
    var applicable := Filter(ApplicableOn(a), dates);
    var completed := Filter(CompletedOn(a), applicable);
    var p := CalculateActionProgress(a, dates);
    assert p.completed == |completed| && p.total == |applicable|;
    FilterLengthAll(CompletedOn(a), applicable);
    FilterMembers(ApplicableOn(a), dates);
    if p.completed == p.total {
      forall i | 0 <= i < |dates| && IsApplicable(a, dates[i])
        ensures IsCompleted(a, dates[i])
      {
        assert ApplicableOn(a)(dates[i]);
        assert dates[i] in applicable;
        assert CompletedOn(a)(dates[i]);
      }
    } else {
      var k :| 0 <= k < |applicable| && !CompletedOn(a)(applicable[k]);
      var i :| 0 <= i < |dates| && dates[i] == applicable[k];
      assert ApplicableOn(a)(applicable[k]);
      assert IsApplicable(a, dates[i]) && !IsCompleted(a, dates[i]);
    }
  }

  /** Every applicable date counts toward the total, and the action is fully done exactly when
      every applicable date among them is completed. */
  lemma ActionProgressCounts(a: Action, dates: seq<Time>)
    ensures var p := CalculateActionProgress(a, dates);
      && (p.total == 0 <==> forall i :: 0 <= i < |dates| ==> !IsApplicable(a, dates[i]))
      && (p.completed == p.total <==>
            forall i :: 0 <= i < |dates| && IsApplicable(a, dates[i]) ==> IsCompleted(a, dates[i]))
  {
    TotalZeroIff(a, dates);
    AllCompletedIff(a, dates);
  }

  // ---------------------------------------------------------------------------------------
  // Heatmap intensity

  /** `{ count, intensity }` of one heatmap cell. */
  datatype Intensity = Intensity(count: nat, intensity: nat)

  /** Whether an action counts toward the cell of `date`: the midnight of the cell's day
      (`new Date(formatDate(date))`) is not before the action's creation, and the action
      applies at `date` itself. */
  function CountsOn(a: Action, date: Time): bool {
    !(Ms(StartOfDay(date)) < Ms(a.createdAt)) && IsApplicable(a, date)
  }

  /** `Math.min(4, Math.floor(c / n * 4))`: the quarter of the applicable actions that are
      completed, 4 only when all are. */
  function HeatLevel(c: nat, n: nat): (level: nat)
    requires 0 < n && c <= n
    ensures level <= 4
    ensures level == 4 <==> c == n
    ensures level == 0 <==> 4 * c < n
    ensures n * level <= 4 * c && (level < 4 ==> 4 * c < n * (level + 1))
  {
    if 4 * c >= 4 * n then 4
    else if 4 * c >= 3 * n then 3
    else if 4 * c >= 2 * n then 2
    else if 4 * c >= n then 1
    else 0
  }

  /** The actions that count toward the cell of `date`. */
  function CountsOnDate(date: Time): Action -> bool {
    a => CountsOn(a, date)
  }

  /** The actions completed on the day of `date`. */
  function CompletedOnDate(date: Time): Action -> bool {
    a => IsCompleted(a, date)
  }

  /** The actions that count toward the cell of `date`, in order. */
  function CountedOn(date: Time, actions: seq<Action>): seq<Action> {
    Filter(CountsOnDate(date), actions)
  }

  /** The actions among `xs` completed on the day of `date`. */
  function CompletedAmong(date: Time, xs: seq<Action>): seq<Action> {
    Filter(CompletedOnDate(date), xs)
  }

  /** `getCompletionIntensity`. */
  function IntensityOf(date: Time, actions: seq<Action>, goalCreatedAt: Time): (r: Intensity)
    ensures r.count <= |actions| && r.intensity <= 4
    ensures Ms(StartOfDay(date)) < Ms(goalCreatedAt) ==> r == Intensity(0, 0)
    ensures r.count == 0 ==> r.intensity == 0
  {
    if Ms(StartOfDay(date)) < Ms(goalCreatedAt) then Intensity(0, 0)
    else
      var counted := CountedOn(date, actions);
      var completed := |CompletedAmong(date, counted)|;
      if |counted| == 0 then Intensity(0, 0)
      else Intensity(completed, HeatLevel(completed, |counted|))
  }

  /** Some action counts on the cell exactly when the counted list is not empty. */
  lemma CountedNonEmpty(date: Time, actions: seq<Action>)
    ensures |CountedOn(date, actions)| > 0 <==> exists i :: 0 <= i < |actions| && CountsOn(actions[i], date)
  {
    var counted := CountedOn(date, actions);
    FilterMembers(CountsOnDate(date), actions);
    if exists i :: 0 <= i < |actions| && CountsOn(actions[i], date) {
      var i :| 0 <= i < |actions| && CountsOn(actions[i], date);
      assert CountsOnDate(date)(actions[i]);
      assert actions[i] in counted;
    }
    if |counted| > 0 {
      assert counted[0] in actions && CountsOnDate(date)(counted[0]);
    }
  }

  /** All counted actions are completed exactly when every action that counts is. */
  lemma CountedAllCompleted(date: Time, actions: seq<Action>)
    ensures var counted := CountedOn(date, actions);
      |CompletedAmong(date, counted)| == |counted| <==>
        forall i :: 0 <= i < |actions| && CountsOn(actions[i], date) ==> IsCompleted(actions[i], date)
  {
    var counted := CountedOn(date, actions);
    FilterLengthAll(CompletedOnDate(date), counted);
    FilterMembers(CountsOnDate(date), actions);
    if |CompletedAmong(date, counted)| == |counted| {
      forall i | 0 <= i < |actions| && CountsOn(actions[i], date)
        ensures IsCompleted(actions[i], date)
      {
        assert CountsOnDate(date)(actions[i]);
        assert actions[i] in counted;
        assert CompletedOnDate(date)(actions[i]);
      }
    } else {
      var k :| 0 <= k < |counted| && !CompletedOnDate(date)(counted[k]);
      var i :| 0 <= i < |actions| && actions[i] == counted[k];
      assert CountsOnDate(date)(counted[k]);
      assert CountsOn(actions[i], date) && !IsCompleted(actions[i], date);
    }
  }

  /** The cell is at full intensity exactly when it is not before the goal, some action counts
      on it, and every action that counts is completed. */
  lemma IntensityFull(date: Time, actions: seq<Action>, goalCreatedAt: Time)
    ensures IntensityOf(date, actions, goalCreatedAt).intensity == 4 <==>
      && !(Ms(StartOfDay(date)) < Ms(goalCreatedAt))
      && (exists i :: 0 <= i < |actions| && CountsOn(actions[i], date))
      && (forall i :: 0 <= i < |actions| && CountsOn(actions[i], date) ==> IsCompleted(actions[i], date))
  {
    CountedNonEmpty(date, actions);
    CountedAllCompleted(date, actions);
  }

  /** When no action counts on the cell the result is {0, 0}. */
  lemma IntensityNoneCounts(date: Time, actions: seq<Action>, goalCreatedAt: Time)
    requires forall i :: 0 <= i < |actions| ==> !CountsOn(actions[i], date)
    ensures IntensityOf(date, actions, goalCreatedAt) == Intensity(0, 0)
  {
    CountedNonEmpty(date, actions);
  }

  /** From the goal's creation on, when some action counts, the count is the number of counted
      actions completed that day and the intensity is `min(4, floor(count / counted * 4))`. */
  lemma IntensityLevels(date: Time, actions: seq<Action>, goalCreatedAt: Time)
    requires !(Ms(StartOfDay(date)) < Ms(goalCreatedAt)) && |CountedOn(date, actions)| > 0
    ensures var r, n := IntensityOf(date, actions, goalCreatedAt), |CountedOn(date, actions)|;
      && r.count == |CompletedAmong(date, CountedOn(date, actions))| <= n
      && n * r.intensity <= 4 * r.count
      && (r.intensity < 4 ==> 4 * r.count < n * (r.intensity + 1))
      && (r.intensity == 4 <==> r.count == n)
  {
    var counted := CountedOn(date, actions);
    var c := |CompletedAmong(date, counted)|;
    assert IntensityOf(date, actions, goalCreatedAt) == Intensity(c, HeatLevel(c, |counted|));
  }

  /** `getCompletionIntensity`'s two outcomes: {0, 0} when no action counts, and otherwise, from
      the goal's creation on, the completed count with its quarter level. */
  lemma IntensityCases(date: Time, actions: seq<Action>, goalCreatedAt: Time)
    ensures (forall i :: 0 <= i < |actions| ==> !CountsOn(actions[i], date)) ==>
      IntensityOf(date, actions, goalCreatedAt) == Intensity(0, 0)
    ensures var r, n := IntensityOf(date, actions, goalCreatedAt), |CountedOn(date, actions)|;
      !(Ms(StartOfDay(date)) < Ms(goalCreatedAt)) && n > 0 ==>
        && r.count == |CompletedAmong(date, CountedOn(date, actions))| <= n
        && n * r.intensity <= 4 * r.count
        && (r.intensity < 4 ==> 4 * r.count < n * (r.intensity + 1))
        && (r.intensity == 4 <==> r.count == n)
  {
    if forall i :: 0 <= i < |actions| ==> !CountsOn(actions[i], date) {
      IntensityNoneCounts(date, actions, goalCreatedAt);
    }
    if !(Ms(StartOfDay(date)) < Ms(goalCreatedAt)) && |CountedOn(date, actions)| > 0 {
      IntensityLevels(date, actions, goalCreatedAt);
    }
  }

  /** Counting one more action: it joins the counted ones when it counts, and the completed
      ones when it is also completed. */
  lemma CountedStep(date: Time, actions: seq<Action>, i: int)
    requires 0 <= i < |actions|
    ensures var a := actions[i];
      && |CountedOn(date, actions[..i + 1])| == |CountedOn(date, actions[..i])| + (if CountsOn(a, date) then 1 else 0)
      && |CompletedAmong(date, CountedOn(date, actions[..i + 1]))|
         == |CompletedAmong(date, CountedOn(date, actions[..i]))| + (if CountsOn(a, date) && IsCompleted(a, date) then 1 else 0)
  {
    var a := actions[i];
    assert actions[..i + 1] == actions[..i] + [a];
    FilterConcat(CountsOnDate(date), actions[..i], [a]);
    FilterConcat(CompletedOnDate(date), CountedOn(date, actions[..i]), CountedOn(date, [a]));
  }

  /** `getCompletionIntensity`, counting in a loop over the actions. */
  method CompletionIntensity(date: Time, actions: seq<Action>, goalCreatedAt: Time) returns (r: Intensity)
    ensures r == IntensityOf(date, actions, goalCreatedAt)
  {
    var dateObj := StartOfDay(date);
    if Ms(dateObj) < Ms(goalCreatedAt) {
      return Intensity(0, 0);
    }
    var completedCount, applicableCount := 0, 0;
    for i := 0 to |actions|
      invariant applicableCount == |CountedOn(date, actions[..i])|
      invariant completedCount == |CompletedAmong(date, CountedOn(date, actions[..i]))|
    {
      var action := actions[i];
      CountedStep(date, actions, i);
      var applicable := IsDateApplicable(date, action.recurrence, action.createdAt);
      var completed := IsCompleted(action, date);
      if Ms(dateObj) < Ms(action.createdAt) {
        continue;
      }
      if applicable {
        applicableCount := applicableCount + 1;
        if completed {
          completedCount := completedCount + 1;
        }
      }
    }
    assert actions[..|actions|] == actions;
    if applicableCount == 0 {
      return Intensity(0, 0);
    }
    r := Intensity(completedCount, HeatLevel(completedCount, applicableCount));
  }

  // ---------------------------------------------------------------------------------------
  // Current streak

  /** How many days back from today `getCurrentStreak` examines. */
  const StreakWindow: nat := 365

  /** The `i`-th day back from `now`, at the same time of day (`checkDate`). */
  function DaysBack(now: Time, i: int): Time {
    AddDays(now, -i)
  }

  /** The two tests the walk makes on the `i`-th day back. */
  function ApplicableBack(a: Action, now: Time): int -> bool {
    i => IsApplicable(a, DaysBack(now, i))
  }

  function CompletedBack(a: Action, now: Time): int -> bool {
    i => IsCompleted(a, DaysBack(now, i))
  }

  /** The streak counted from the `i`-th day back, for day tests `applicable` and `completed`:
      inapplicable days are skipped, completed applicable days count one each, and the first
      applicable day not completed ends it. */
  function StreakFrom(applicable: int -> bool, completed: int -> bool, i: nat): (n: nat)
    requires i <= StreakWindow
    ensures n <= StreakWindow - i
    decreases StreakWindow - i
  {
    if i == StreakWindow then 0
    else if !applicable(i) then StreakFrom(applicable, completed, i + 1)
    else if completed(i) then 1 + StreakFrom(applicable, completed, i + 1)
    else 0
  }

  /** The streak of `getCurrentStreak`. */
  function Streak(a: Action, now: Time): nat {
    StreakFrom(ApplicableBack(a, now), CompletedBack(a, now), 0)
  }

  /** The first day back from the `i`-th one (0 = today) that is applicable and not
      completed, or `StreakWindow` when there is none inside the window. */
  function FirstMiss(applicable: int -> bool, completed: int -> bool, i: nat): (m: nat)
    requires i <= StreakWindow
    ensures i <= m <= StreakWindow
    decreases StreakWindow - i
  {
    if i == StreakWindow then i
    else if applicable(i) && !completed(i) then i
    else FirstMiss(applicable, completed, i + 1)
  }

  /** Every applicable day before the first miss is completed, and the first miss inside the
      window is a day that is applicable and not completed. */
  lemma {:induction false} FirstMissIsFirst(applicable: int -> bool, completed: int -> bool, i: nat)
    requires i <= StreakWindow
    ensures var m := FirstMiss(applicable, completed, i);
      && (forall j :: i <= j < m && applicable(j) ==> completed(j))
      && (m < StreakWindow ==> applicable(m) && !completed(m))
    decreases StreakWindow - i
  {
    if i < StreakWindow && !(applicable(i) && !completed(i)) {
      FirstMissIsFirst(applicable, completed, i + 1);
    }
  }

  /** Number of applicable days among the days `lo`..`hi - 1` back from today. */
  function CountApplicableBack(applicable: int -> bool, lo: nat, hi: nat): nat
    decreases hi - lo
  {
    if lo >= hi then 0
    else (if applicable(lo) then 1 else 0) + CountApplicableBack(applicable, lo + 1, hi)
  }

  /** The streak is the number of applicable days before the first miss walking back from
      today, inside the 365-day window. */
  lemma {:induction false} StreakCountsToFirstMiss(applicable: int -> bool, completed: int -> bool, i: nat)
    requires i <= StreakWindow
    ensures StreakFrom(applicable, completed, i)
         == CountApplicableBack(applicable, i, FirstMiss(applicable, completed, i))
    decreases StreakWindow - i
  {
    if i < StreakWindow && !(applicable(i) && !completed(i)) {
      StreakCountsToFirstMiss(applicable, completed, i + 1);
    }
  }

  /** An applicable day today that is not completed leaves no streak. */
  lemma StreakBrokenToday(a: Action, now: Time)
    requires IsApplicable(a, now) && !IsCompleted(a, now)
    ensures Streak(a, now) == 0
  {
    assert DaysBack(now, 0) == now;
    assert ApplicableBack(a, now)(0) && !CompletedBack(a, now)(0);
  }

  /** The loop of `getCurrentStreak` over the day tests: day `i` back is skipped when the
      action does not apply, counted when it was completed, and ends the walk otherwise. */
  method WalkBack(applicable: int -> bool, completed: int -> bool) returns (streak: nat)
    ensures streak == StreakFrom(applicable, completed, 0)
  {
    streak := 0;
    var i := 0;
    while i < StreakWindow
      invariant 0 <= i <= StreakWindow
      invariant streak + StreakFrom(applicable, completed, i) == StreakFrom(applicable, completed, 0)
    {
      if !applicable(i) {
        i := i + 1;
        continue;
      }
      if completed(i) {
        streak := streak + 1;
      } else {
        break;
      }
      i := i + 1;
    }
  }

  /** `getCurrentStreak`, walking back from today with `isApplicable` and `isCompleted` on
      each day. */
  method CurrentStreak(a: Action, now: Time) returns (streak: nat)
    ensures streak == Streak(a, now)
  {
    streak := WalkBack(ApplicableBack(a, now), CompletedBack(a, now));
  }
}
