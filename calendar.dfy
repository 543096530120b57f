/** The part of JavaScript's `Date` the core uses, on local time: timestamps (`getTime()`),
    midnight normalisation (`setHours(0, 0, 0, 0)`), day shifts (`setDate(getDate() + n)`),
    the weekday (`getDay`), the calendar fields (`getFullYear`, `getMonth`, `getDate`) and the
    field-to-day conversion of `new Date(year, monthIndex, date)`. The calendar is the
    proleptic Gregorian one. Daylight-saving changes are not modelled: every day has
    exactly `MsPerDay` milliseconds. */
module Calendar {

  const MsPerDay: int := 86400000

  /** A local timestamp, held as the day it falls on (days since 1970-01-01, negative before)
      and the milliseconds since that day's midnight. */
  datatype Moment = Moment(day: int, msOfDay: int)

  type Time = t: Moment | 0 <= t.msOfDay < MsPerDay witness Moment(0, 0)

  /** `getTime()`: milliseconds since 1970-01-01 00:00 local time. */
  function Ms(t: Time): int {
    t.day * MsPerDay + t.msOfDay
  }

  /** `new Date(ms)`: the timestamp `ms` milliseconds after 1970-01-01 00:00 local time. */
  function FromMs(ms: int): (t: Time)
    ensures Ms(t) == ms
  {
    Moment(ms / MsPerDay, ms % MsPerDay)
  }

  /** A timestamp on a later day has a larger millisecond value. */
  lemma MsOrder(a: Time, b: Time)
    ensures a.day < b.day ==> Ms(a) < Ms(b)
  {
  }

  /** A timestamp is determined by its millisecond value. */
  lemma MsInjective(a: Time, b: Time)
    requires Ms(a) == Ms(b)
    ensures a == b
  {
    MsOrder(a, b);
    MsOrder(b, a);
  }

  /** The day number of a timestamp. */
  function DayOf(t: Time): int {
    t.day
  }

  /** `setHours(0, 0, 0, 0)` on a copy: local midnight of the same day. */
  function StartOfDay(t: Time): (m: Time)
    ensures DayOf(m) == DayOf(t)
    ensures Ms(m) <= Ms(t) < Ms(m) + MsPerDay
  {
    Moment(t.day, 0)
  }

  /** Midnight of day number `day`. */
  function Midnight(day: int): (m: Time)
    ensures DayOf(m) == day && StartOfDay(m) == m
    ensures Ms(m) == day * MsPerDay
  {
    Moment(day, 0)
  }

  /** `setDate(getDate() + n)` on a copy: the same time of day, `n` days later. */
  function AddDays(t: Time, n: int): (r: Time)
    ensures DayOf(r) == DayOf(t) + n
    ensures Ms(r) - Ms(StartOfDay(r)) == Ms(t) - Ms(StartOfDay(t))
    ensures Ms(r) == Ms(t) + n * MsPerDay
  {
    Moment(t.day + n, t.msOfDay)
  }

  /** Comparing midnights is comparing day numbers, and the midnight of a later timestamp
      is not earlier. */
  lemma StartOfDayOrder(a: Time, b: Time)
    ensures Ms(StartOfDay(a)) < Ms(StartOfDay(b)) <==> DayOf(a) < DayOf(b)
    ensures StartOfDay(a) == StartOfDay(b) <==> DayOf(a) == DayOf(b)
    ensures Ms(a) <= Ms(b) ==> DayOf(a) <= DayOf(b)
  {
    MsOrder(b, a);
  }

  /** `getDay()`: 0 = Sunday, ..., 6 = Saturday. 1970-01-01 was a Thursday. */
  function Weekday(day: int): (w: int)
    ensures 0 <= w < 7
  {
    (day + 4) % 7
  }

  /** The weekday repeats every seven days and advances by one each day. */
  lemma WeekdayShift(day: int, k: int)
    ensures Weekday(day + 7 * k) == Weekday(day)
    ensures Weekday(day + 1) == (Weekday(day) + 1) % 7
  {
  }

  /** `n` days later the weekday has advanced by `n`, modulo seven. */
  lemma WeekdayAdd(day: int, n: int)
    ensures Weekday(day + n) == (Weekday(day) + n) % 7
  {
    var q := (day + 4) / 7;
    assert day + 4 == 7 * q + Weekday(day);
    assert day + n + 4 == 7 * q + (Weekday(day) + n);
  }

  /** Calendar fields: `getFullYear()`, `getMonth() + 1` and `getDate()`. */
  datatype CivilDate = CivilDate(year: int, month: int, day: int)

  /** A day's position in the 400-year Gregorian cycle that starts on 1 March of a year
      divisible by 400: the cycle, the century in it (the fourth one is a day longer), the
      four-year block in the century, the year in the block (the fourth one holds the leap
      day, except at the end of the first three centuries) and the day in that year, counted
      from 1 March. */
  datatype CyclePos = CyclePos(cycle: int, century: int, quad: int, year: int, dayOfYear: int)

  /** Days from 0000-03-01 to 1970-01-01. */
  const EpochShift: int := 719468

  function Decompose(z: int): (p: CyclePos)
    ensures 0 <= p.century <= 3 && 0 <= p.quad <= 24 && 0 <= p.year <= 3
    ensures 0 <= p.dayOfYear <= 365
    ensures p.year < 3 ==> p.dayOfYear < 365
    ensures p.century < 3 && p.quad == 24 ==> p.dayOfYear < 365
    ensures 146097 * p.cycle + 36524 * p.century + 1461 * p.quad + 365 * p.year + p.dayOfYear
            == z + EpochShift
  {
    var s := z + EpochShift;
    var doe := s % 146097;
    // The last day of the cycle (and of a four-year block) belongs to the last century (year).
    var century := (doe - doe / 146096) / 36524;
    var doc := doe - 36524 * century;
    var doq := doc % 1461;
    var year := (doq - doq / 1460) / 365;
    CyclePos(s / 146097, century, doc / 1461, year, doq - 365 * year)
  }

  /** Day of the March-based year on which March-based month `mp` starts (0 = March, ...,
      11 = February): 0, 31, 61, 92, 122, 153, 184, 214, 245, 275, 306, 337; entry 12 lies
      past the end of a leap year. */
  function MonthStart(mp: int): int
    requires 0 <= mp <= 12
  {
    (153 * mp + 2) / 5
  }

  /** The March-based month that contains day `doy` of the March-based year. */
  function MarchMonth(doy: int): (mp: int)
    requires 0 <= doy <= 365
    ensures 0 <= mp < 12 && MonthStart(mp) <= doy < MonthStart(mp + 1)
  {
    (5 * doy + 2) / 153
  }

  /** The calendar fields of day number `z`. */
  function CivilFromDays(z: int): (c: CivilDate)
    ensures 1 <= c.month <= 12 && 1 <= c.day <= 31
  {
    var p := Decompose(z);
    var mp := MarchMonth(p.dayOfYear);
    var y := 400 * p.cycle + 100 * p.century + 4 * p.quad + p.year;
    var m := if mp < 10 then mp + 3 else mp - 9;
    CivilDate(if m <= 2 then y + 1 else y, m, p.dayOfYear - MonthStart(mp) + 1)
  }

  /** Day number of 1 March of March-based year `y` (the year that starts on 1 March of
      calendar year `y`). */
  function YearStart(y: int): int {
    var yoe := y % 400;
    146097 * (y / 400) + 36524 * (yoe / 100) + 1461 * (yoe % 100 / 4) + 365 * (yoe % 4) - EpochShift
  }

  /** The day number of calendar fields with a month in 1..12; the day of the month may lie
      outside the month, which counts on from its first day. */
  function DaysFromCivil(c: CivilDate): int
    requires 1 <= c.month <= 12
  {
    var y := if c.month <= 2 then c.year - 1 else c.year;
    var mp := if c.month > 2 then c.month - 3 else c.month + 9;
    YearStart(y) + MonthStart(mp) + c.day - 1
  }

  lemma DivMod400(x: int, q: int, r: int)
    requires 0 <= r < 400 && x == 400 * q + r
    ensures x / 400 == q && x % 400 == r
  {
  }

  lemma DivMod100(x: int, q: int, r: int)
    requires 0 <= r < 100 && x == 100 * q + r
    ensures x / 100 == q && x % 100 == r
  {
  }

  lemma DivMod4(x: int, q: int, r: int)
    requires 0 <= r < 4 && x == 4 * q + r
    ensures x / 4 == q && x % 4 == r
  {
  }

  /** The start of a March-based year given by its place in the 400-year cycle. */
  lemma YearStartAt(y: int, cycle: int, century: int, quad: int, year: int)
    requires 0 <= century <= 3 && 0 <= quad <= 24 && 0 <= year <= 3
    requires y == 400 * cycle + 100 * century + 4 * quad + year
    ensures YearStart(y) == 146097 * cycle + 36524 * century + 1461 * quad + 365 * year - EpochShift
  {
    var yoe := 100 * century + 4 * quad + year;
    DivMod400(y, cycle, yoe);
    DivMod100(yoe, century, 4 * quad + year);
    DivMod4(4 * quad + year, quad, year);
    DivMod4(yoe, 25 * century + quad, year);
  }

  /** The March-based year of a cycle position starts `dayOfYear` days before the day. */
  lemma YearStartOf(z: int)
    ensures var p := Decompose(z);
      YearStart(400 * p.cycle + 100 * p.century + 4 * p.quad + p.year) == z - p.dayOfYear
  {
    var p := Decompose(z);
    YearStartAt(400 * p.cycle + 100 * p.century + 4 * p.quad + p.year, p.cycle, p.century, p.quad, p.year);
  }

  /** Reading the calendar fields of a day and converting them back gives the same day. */
  lemma CivilRoundTrip(z: int)
    ensures DaysFromCivil(CivilFromDays(z)) == z
  {
    YearStartOf(z);
  }

  /** Different days have different calendar fields. */
  lemma CivilInjective(z1: int, z2: int)
    requires CivilFromDays(z1) == CivilFromDays(z2)
    ensures z1 == z2
  {
    CivilRoundTrip(z1);
    CivilRoundTrip(z2);
  }

  /** The day number is linear in the day-of-month field. */
  lemma DaysFromCivilDay(c: CivilDate, d: int)
    requires 1 <= c.month <= 12
    ensures DaysFromCivil(CivilDate(c.year, c.month, d)) == DaysFromCivil(c) + d - c.day
  {
  }

  /** `new Date(year, monthIndex, date)` as a day number: the month index counts from 0 and,
      like the date, may overflow into neighbouring years and months. */
  function MakeDay(year: int, monthIndex: int, date: int): int {
    DaysFromCivil(CivilDate(year + monthIndex / 12, monthIndex % 12 + 1, 1)) + date - 1
  }

  /** `new Date(year, monthIndex, 1)` with the month index of the date `c` of day `z`: the
      first of its month, `c.day - 1` days before `z`. */
  lemma FirstOfMonth(c: CivilDate, z: int)
    requires 1 <= c.month <= 12 && DaysFromCivil(c) == z
    ensures MakeDay(c.year, c.month - 1, 1) == z - (c.day - 1) == DaysFromCivil(CivilDate(c.year, c.month, 1))
  {
    MonthIndexSplit(c.month - 1);
    DaysFromCivilDay(c, 1);
  }

  /** A March-based year is longer than the day-of-year of any of its days: the position
      bounds `Decompose` guarantees leave room for the day in its year. */
  lemma YearLongEnough(y: int, cycle: int, century: int, quad: int, year: int, dayOfYear: int)
    requires 0 <= century <= 3 && 0 <= quad <= 24 && 0 <= year <= 3 && 0 <= dayOfYear <= 365
    requires year < 3 ==> dayOfYear < 365
    requires century < 3 && quad == 24 ==> dayOfYear < 365
    requires y == 400 * cycle + 100 * century + 4 * quad + year
    ensures YearStart(y + 1) - YearStart(y) > dayOfYear
  {
    YearStartAt(y, cycle, century, quad, year);
    if year < 3 {
      YearStartAt(y + 1, cycle, century, quad, year + 1);
    } else if quad < 24 {
      YearStartAt(y + 1, cycle, century, quad + 1, 0);
    } else if century < 3 {
      YearStartAt(y + 1, cycle, century + 1, 0, 0);
    } else {
      YearStartAt(y + 1, cycle + 1, 0, 0, 0);
    }
  }

  /** A month index in 0..12 splits into a year carry and a month of the year. */
  lemma MonthIndexSplit(mi: int)
    requires 0 <= mi <= 12
    ensures mi / 12 == (if mi == 12 then 1 else 0)
    ensures mi % 12 == (if mi == 12 then 0 else mi)
  {
  }

  /** `new Date(year, month, 1)` with a 1-based `month`: the first day of the following month. */
  lemma MakeDayNextMonth(year: int, month: int)
    requires 1 <= month <= 12
    ensures MakeDay(year, month, 1) == if month == 12 then YearStart(year) + MonthStart(10)
                                       else if month == 1 then YearStart(year - 1) + MonthStart(11)
                                       else if month == 2 then YearStart(year)
                                       else YearStart(year) + MonthStart(month - 2)
  {
    MonthIndexSplit(month);
    if month == 12 {
      assert MakeDay(year, month, 1) == DaysFromCivil(CivilDate(year + 1, 1, 1));
    } else {
      assert MakeDay(year, month, 1) == DaysFromCivil(CivilDate(year, month + 1, 1));
    }
  }

  /** The first of the month after March-based month `mp` of March-based year `y`, given the
      calendar year and month of that month. */
  lemma NextMonthStart(year: int, month: int, y: int, mp: int)
    requires 0 <= mp < 12
    requires month == if mp < 10 then mp + 3 else mp - 9
    requires year == if month <= 2 then y + 1 else y
    ensures MakeDay(year, month, 1) == if mp == 11 then YearStart(y + 1) else YearStart(y) + MonthStart(mp + 1)
  {
    MakeDayNextMonth(year, month);
  }

  /** The first day of the month after the one that holds day `z` comes after `z`. */
  lemma NextMonthAfter(z: int)
    ensures z < MakeDay(CivilFromDays(z).year, CivilFromDays(z).month, 1)
  {
    var c := CivilFromDays(z);
    var p := Decompose(z);
    var doy := p.dayOfYear;
    var mp := MarchMonth(doy);
    var y := 400 * p.cycle + 100 * p.century + 4 * p.quad + p.year;
    var next := MakeDay(c.year, c.month, 1);
    assert next == if mp == 11 then YearStart(y + 1) else YearStart(y) + MonthStart(mp + 1) by {
      NextMonthStart(c.year, c.month, y, mp);
    }
    assert YearStart(y) == z - doy by {
      YearStartOf(z);
    }
    if mp == 11 {
      // February: the next month is March, which starts March-based year y + 1.
      YearLongEnough(y, p.cycle, p.century, p.quad, p.year, doy);
    }
  }

  /** `new Date(year, month, 1)` with the year and month index of day `z`: the first day of
      the month, `getDate() - 1` days before `z`. */
  function FirstDayOfMonth(z: int): (f: int)
    ensures f == z - (CivilFromDays(z).day - 1)
  {
    CivilRoundTrip(z);
    FirstOfMonth(CivilFromDays(z), z);
    MakeDay(CivilFromDays(z).year, CivilFromDays(z).month - 1, 1)
  }

  /** `new Date(year, month + 1, 0)` with the year and month index of day `z`: the last day of
      the month, which is not before `z`. */
  function LastDayOfMonth(z: int): (l: int)
    ensures z <= l
  {
    NextMonthAfter(z);
    MakeDay(CivilFromDays(z).year, CivilFromDays(z).month, 0)
  }
  /** The month number of calendar fields: months counted from January of year 0. */
  function MonthNumber(c: CivilDate): int {
    12 * c.year + c.month - 1
  }

  /** The day number of the first day of month number `k`. */
  function FirstOfMonthNumber(k: int): int {
    DaysFromCivil(CivilDate(k / 12, k % 12 + 1, 1))
  }

  lemma DivMod12(x: int, q: int, r: int)
    requires 0 <= r < 12 && x == 12 * q + r
    ensures x / 12 == q && x % 12 == r
  {
  }

  /** The first of the month of calendar fields `c` is the first of month number `MonthNumber(c)`. */
  lemma MonthFirstOf(c: CivilDate)
    requires 1 <= c.month <= 12
    ensures FirstOfMonthNumber(MonthNumber(c)) == DaysFromCivil(CivilDate(c.year, c.month, 1))
  {
    MonthFirstAt(MonthNumber(c), c.year, c.month - 1);
    MakeDayFirst(c.year, c.month);
  }

  /** `new Date(year, month, 1)` on the fields of `c` is the first of month `MonthNumber(c) + 1`. */
  lemma MonthFirstOfNext(c: CivilDate)
    requires 1 <= c.month <= 12
    ensures FirstOfMonthNumber(MonthNumber(c) + 1) == MakeDay(c.year, c.month, 1)
  {
    MonthFirstAt(MonthNumber(c) + 1, c.year, c.month);
  }

  /** `new Date(year, month - 1, 1)` for a month in 1..12 is the first of that month. */
  lemma MakeDayFirst(year: int, month: int)
    requires 1 <= month <= 12
    ensures MakeDay(year, month - 1, 1) == DaysFromCivil(CivilDate(year, month, 1))
  {
    MonthIndexSplit(month - 1);
  }

  /** Month number `12 * year + mi`, for a month index `mi` in 0..12 that may carry into the
      next year, starts on `new Date(year, mi, 1)`. */
  lemma MonthFirstAt(k: int, year: int, mi: int)
    requires 0 <= mi <= 12 && k == 12 * year + mi
    ensures FirstOfMonthNumber(k) == MakeDay(year, mi, 1)
  {
    MonthIndexSplit(mi);
    if mi == 12 {
      DivMod12(k, year + 1, 0);
    } else {
      DivMod12(k, year, mi);
    }
  }

  /** A March-based year has at least 365 days. */
  lemma YearLength(y: int)
    ensures YearStart(y + 1) - YearStart(y) >= 365
  {
    var r := y % 400;
    assert y == 400 * (y / 400) + 100 * (r / 100) + 4 * (r % 100 / 4) + r % 100 % 4;
    YearLongEnough(y, y / 400, r / 100, r % 100 / 4, r % 100 % 4, 364);
  }

  /** Each month starts after the one before it. */
  lemma FirstOfMonthNumberStep(k: int)
    ensures FirstOfMonthNumber(k) < FirstOfMonthNumber(k + 1)
  {
    var y, mi := k / 12, k % 12;
    if mi == 11 {
      assert (k + 1) / 12 == y + 1 && (k + 1) % 12 == 0;
    } else {
      assert (k + 1) / 12 == y && (k + 1) % 12 == mi + 1;
      if mi == 1 {
        // February to March: the new March-based year begins.
        YearLength(y - 1);
      }
    }
  }

  lemma {:induction false} MonthStartsMonotone(a: int, b: int)
    requires a <= b
    ensures FirstOfMonthNumber(a) <= FirstOfMonthNumber(b)
    decreases b - a
  {
    if a < b {
      FirstOfMonthNumberStep(a);
      MonthStartsMonotone(a + 1, b);
    }
  }

  /** Calendar fields of day `z` whose day number and next month are known: the first of
      month number `MonthNumber(c)` is `c.day - 1` days before `z`, and the next month's
      first is after `z`. */
  lemma MonthFactsOf(c: CivilDate, z: int)
    requires 1 <= c.month <= 12 && DaysFromCivil(c) == z && z < MakeDay(c.year, c.month, 1)
    ensures FirstOfMonthNumber(MonthNumber(c)) == z - (c.day - 1) && z < FirstOfMonthNumber(MonthNumber(c) + 1)
  {
    MonthFirstOf(c);
    MonthFirstOfNext(c);
    FirstOfMonth(c, z);
  }

  /** Every day lies in its own month: `getDate() - 1` days after the month's first day and
      before the next month's. */
  lemma InOwnMonth(z: int)
    ensures var c := CivilFromDays(z);
      FirstOfMonthNumber(MonthNumber(c)) == z - (c.day - 1) && z < FirstOfMonthNumber(MonthNumber(c) + 1)
  {
    CivilRoundTrip(z);
    NextMonthAfter(z);
    MonthFactsOf(CivilFromDays(z), z);
  }

  /** The month starts, as a function value, never decrease. */
  lemma MonthStartsMonotoneAll()
    ensures forall a, b :: a <= b ==> FirstOfMonthNumber(a) <= FirstOfMonthNumber(b)
  {
    forall a, b | a <= b
      ensures FirstOfMonthNumber(a) <= FirstOfMonthNumber(b)
    {
      MonthStartsMonotone(a, b);
    }
  }

  /** For non-decreasing start points `f`, a point lies between `f(j)` and `f(j + 1)` for only
      one `j`. */
  lemma IntervalUnique(f: int -> int, j: int, k: int, z: int)
    requires forall a, b :: a <= b ==> f(a) <= f(b)
    requires f(j) <= z < f(j + 1) && f(k) <= z < f(k + 1)
    ensures j == k
  {
    if j < k {
      assert f(j + 1) <= f(k);
    } else if j > k {
      assert f(k + 1) <= f(j);
    }
  }

  /** A day lies between the first days of only one pair of consecutive months. */
  lemma MonthUnique(j: int, k: int, z: int)
    requires FirstOfMonthNumber(j) <= z < FirstOfMonthNumber(j + 1)
    requires FirstOfMonthNumber(k) <= z < FirstOfMonthNumber(k + 1)
    ensures j == k
  {
    MonthStartsMonotoneAll();
    IntervalUnique(FirstOfMonthNumber, j, k, z);
  }

  /** Two calendar fields with the same month number have the same year and month. */
  lemma MonthNumberInjective(a: CivilDate, b: CivilDate)
    requires 1 <= a.month <= 12 && 1 <= b.month <= 12
    requires MonthNumber(a) == MonthNumber(b)
    ensures a.year == b.year && a.month == b.month
  {
  }

  /** The last day of the month of `z` is not before the month's first day and is the day
      before the next month's first day. */
  lemma LastDayNumber(z: int)
    ensures var k := MonthNumber(CivilFromDays(z));
      FirstOfMonthNumber(k) <= LastDayOfMonth(z) && LastDayOfMonth(z) + 1 == FirstOfMonthNumber(k + 1)
  {
    MonthFirstOfNext(CivilFromDays(z));
    InOwnMonth(z);
  }

  /** A day between the first days of month `k` and of the next month lies in month `k`. */
  lemma InMonth(w: int, k: int)
    requires FirstOfMonthNumber(k) <= w < FirstOfMonthNumber(k + 1)
    ensures MonthNumber(CivilFromDays(w)) == k
  {
    var j := MonthNumber(CivilFromDays(w));
    assert FirstOfMonthNumber(j) <= w < FirstOfMonthNumber(j + 1) by {
      InOwnMonth(w);
    }
    MonthUnique(j, k, w);
  }

  /** The first day of month `k` is the first of its month. */
  lemma MonthFirstIsFirst(w: int, k: int)
    requires w == FirstOfMonthNumber(k)
    ensures CivilFromDays(w).day == 1
  {
    FirstOfMonthNumberStep(k);
    InMonth(w, k);
    InOwnMonth(w);
  }

  /** `LastDayOfMonth(z)` lies in the month of `z`. */
  lemma LastDayInMonth(z: int)
    ensures CivilFromDays(LastDayOfMonth(z)).year == CivilFromDays(z).year
    ensures CivilFromDays(LastDayOfMonth(z)).month == CivilFromDays(z).month
  {
    var l := LastDayOfMonth(z);
    LastDayNumber(z);
    InMonth(l, MonthNumber(CivilFromDays(z)));
    MonthNumberInjective(CivilFromDays(l), CivilFromDays(z));
  }

  /** The day after `LastDayOfMonth(z)` is the first of a month. */
  lemma DayAfterLastIsFirst(z: int)
    ensures CivilFromDays(LastDayOfMonth(z) + 1).day == 1
  {
    LastDayNumber(z);
    MonthFirstIsFirst(LastDayOfMonth(z) + 1, MonthNumber(CivilFromDays(z)) + 1);
  }
  /** `new Date(year, month + 1, 0)` is the last day of the month: it lies in the month of `z`,
      not before `z`, and the day after it is the first of the next month. */
  lemma LastDayOfMonthIsLast(z: int)
    ensures var l := LastDayOfMonth(z);
      && z <= l
      && CivilFromDays(l).year == CivilFromDays(z).year
      && CivilFromDays(l).month == CivilFromDays(z).month
      && CivilFromDays(l + 1).day == 1
  {
    LastDayInMonth(z);
    DayAfterLastIsFirst(z);
  }
}
