/** `components/DateNavigator.tsx`: the day switcher of the home page. It labels the selected
    day relative to today and moves one day at a time inside a window of ten days either side
    of today. `now` stands for `new Date()`; the selected date is a local timestamp. */
module DateNavigator {
  import opened Wrappers
  import opened Strings
  import opened Calendar

  /** How far the desktop navigator reaches either side of today, in days. */
  const Window: int := 10

  /** `Math.round((target - today) / msPerDay)` on two midnights: the offset in days. */
  function DayOffset(now: Time, target: Time): (d: int)
    ensures d == DayOf(target) - DayOf(now)
  {
    var a, b := DayOf(target), DayOf(now);
    assert Ms(StartOfDay(target)) - Ms(StartOfDay(now)) == (a - b) * MsPerDay;
    (Ms(StartOfDay(target)) - Ms(StartOfDay(now))) / MsPerDay
  }

  /** What the navigator shows: a relative phrase, or the `en-US` short date of `toLocaleDateString`
      with a short weekday, a short month and a numeric day ("Thu, Oct 1"), given by the
      weekday (Sunday = 0), the month (1..12) and the day of the month. It shows no year. */
  datatype Display = Phrase(text: string) | ShortDate(weekday: int, month: int, dayOfMonth: int)

  /** The short date of day number `day`. */
  function ShortDateOf(day: int): Display {
    ShortDate(Weekday(day), CivilFromDays(day).month, CivilFromDays(day).day)
  }

  /** The label of day number `day`, which lies `d` days from today, inside a window of
      `reach` days. */
  function RelativeLabel(reach: int, d: int, day: int): Display {
    if d == 0 then Phrase("Today")
    else if d == 1 then Phrase("Tomorrow")
    else if d == -1 then Phrase("Yesterday")
    else if 1 < d <= reach then Phrase("In " + NatToString(d) + " days")
    else if -reach <= d < -1 then Phrase(NatToString(-d) + " days ago")
    else ShortDateOf(day)
  }

  /** `formatDateDisplay`. */
  function FormatDateDisplay(now: Time, target: Time): Display {
    RelativeLabel(Window, DayOffset(now, target), DayOf(target))
  }

  /** The phrase is used exactly inside the window, and the words fit the offset. */
  lemma RelativeLabelCases(reach: int, d: int, day: int)
    requires reach >= 1
    ensures RelativeLabel(reach, d, day).Phrase? <==> -reach <= d <= reach
    ensures RelativeLabel(reach, d, day) == Phrase("Today") <==> d == 0
    ensures RelativeLabel(reach, d, day) == Phrase("Tomorrow") <==> d == 1
    ensures RelativeLabel(reach, d, day) == Phrase("Yesterday") <==> d == -1
  {
    LabelFormOfLabel(reach, d, day);
  }

  lemma InDaysInjective(a: nat, b: nat)
    requires "In " + NatToString(a) + " days" == "In " + NatToString(b) + " days"
    ensures a == b
  {
    var sa, sb := NatToString(a), NatToString(b);
    var la, lb := "In " + sa + " days", "In " + sb + " days";
    assert |sa| == |sb|;
    assert la[3..3 + |sa|] == sa && lb[3..3 + |sb|] == sb;
    NatToStringInjective(a, b);
  }

  lemma DaysAgoInjective(a: nat, b: nat)
    requires NatToString(a) + " days ago" == NatToString(b) + " days ago"
    ensures a == b
  {
    var sa, sb := NatToString(a), NatToString(b);
    var la, lb := sa + " days ago", sb + " days ago";
    assert |sa| == |sb|;
    assert la[..|sa|] == sa && lb[..|sb|] == sb;
    NatToStringInjective(a, b);
  }

  /** Which of the six forms the label of offset `d` takes. */
  function LabelForm(reach: int, d: int): int {
    if d == 0 then 0 else if d == 1 then 1 else if d == -1 then 2
    else if 1 < d <= reach then 3 else if -reach <= d < -1 then 4 else 5
  }

  /** The form a label has, read off the label itself. */
  function LabelFormOf(l: Display): int {
    if l.ShortDate? then 5
    else if l.text == "Today" then 0 else if l.text == "Tomorrow" then 1
    else if l.text == "Yesterday" then 2
    else if |l.text| > 0 && l.text[0] == 'I' then 3 else 4
  }

  lemma LabelFormOfLabel(reach: int, d: int, day: int)
    ensures LabelFormOf(RelativeLabel(reach, d, day)) == LabelForm(reach, d)
  {
    var l := RelativeLabel(reach, d, day);
    if 1 < d <= reach {
      assert l.text[0] == 'I';
    } else if -reach <= d < -1 {
      assert l.text[0] == NatToString(-d)[0];
      assert IsDigit(l.text[0]);
    }
  }

  /** Inside the window a label tells which day is selected: no other offset, inside the window
      or outside it, gets the same label. */
  lemma RelativeLabelInjective(reach: int, a: int, dayA: int, b: int, dayB: int)
    requires -reach <= a <= reach
    requires RelativeLabel(reach, a, dayA) == RelativeLabel(reach, b, dayB)
    ensures a == b
  {
    LabelFormOfLabel(reach, a, dayA);
    LabelFormOfLabel(reach, b, dayB);
    if LabelForm(reach, a) == 3 {
      InDaysInjective(a, b);
    } else if LabelForm(reach, a) == 4 {
      DaysAgoInjective(-a, -b);
    }
  }

  /** `isToday`: the selected day, taken at midnight, is today's midnight. */
  predicate IsToday(now: Time, selected: Time) {
    StartOfDay(selected) == StartOfDay(now)
  }

  lemma IsTodayLabel(now: Time, selected: Time)
    ensures IsToday(now, selected) <==> DayOf(selected) == DayOf(now)
    ensures IsToday(now, selected) <==> FormatDateDisplay(now, selected) == Phrase("Today")
  {
    StartOfDayOrder(selected, now);
    RelativeLabelCases(Window, DayOffset(now, selected), DayOf(selected));
  }

  /** `goToPreviousDay`: the day before, when it stays inside a window reaching `reach` days
      back; `None` when the handler returns without calling `onDateChange`. */
  function GoToPreviousDay(reach: int, now: Time, selected: Time): (r: Option<Time>)
    ensures r.Some? <==> DayOf(selected) > DayOf(now) - reach
    ensures r.Some? ==> r.value == AddDays(selected, -1) && DayOf(r.value) >= DayOf(now) - reach
  {
    var minDate := AddDays(StartOfDay(now), -reach);
    if Ms(StartOfDay(selected)) <= Ms(minDate) then None
    else
      var newDate := AddDays(selected, -1);
      if Ms(StartOfDay(newDate)) >= Ms(minDate) then Some(newDate) else None
  }

  /** `goToNextDay`: the day after, when it stays inside a window reaching `reach` days ahead. */
  function GoToNextDay(reach: int, now: Time, selected: Time): (r: Option<Time>)
    ensures r.Some? <==> DayOf(selected) < DayOf(now) + reach
    ensures r.Some? ==> r.value == AddDays(selected, 1) && DayOf(r.value) <= DayOf(now) + reach
  {
    var maxDate := AddDays(StartOfDay(now), reach);
    if Ms(StartOfDay(selected)) >= Ms(maxDate) then None
    else
      var newDate := AddDays(selected, 1);
      if Ms(StartOfDay(newDate)) <= Ms(maxDate) then Some(newDate) else None
  }

  /** `canNavigateBackward`, which disables the up arrow. */
  predicate CanNavigateBackward(reach: int, now: Time, selected: Time) {
    Ms(StartOfDay(selected)) > Ms(AddDays(StartOfDay(now), -reach))
  }

  /** `canNavigateForward`, which disables the down arrow. */
  predicate CanNavigateForward(reach: int, now: Time, selected: Time) {
    Ms(StartOfDay(selected)) < Ms(AddDays(StartOfDay(now), reach))
  }

  /** An arrow is enabled exactly when pressing it changes the date. */
  lemma ArrowsEnabledIffMove(reach: int, now: Time, selected: Time)
    ensures CanNavigateBackward(reach, now, selected) <==> GoToPreviousDay(reach, now, selected).Some?
    ensures CanNavigateForward(reach, now, selected) <==> GoToNextDay(reach, now, selected).Some?
  {
    StartOfDayOrder(selected, AddDays(StartOfDay(now), -reach));
    StartOfDayOrder(selected, AddDays(StartOfDay(now), reach));
  }

  predicate InWindow(reach: int, now: Time, t: Time) {
    DayOf(now) - reach <= DayOf(t) <= DayOf(now) + reach
  }

  /** The arrows never leave the window, and a step back and forth returns to the same day
      at the same time of day. */
  lemma NavigationStaysInWindow(reach: int, now: Time, selected: Time)
    requires InWindow(reach, now, selected)
    ensures GoToPreviousDay(reach, now, selected).Some? ==> InWindow(reach, now, GoToPreviousDay(reach, now, selected).value)
    ensures GoToNextDay(reach, now, selected).Some? ==> InWindow(reach, now, GoToNextDay(reach, now, selected).value)
    ensures GoToPreviousDay(reach, now, selected).Some? ==>
      GoToNextDay(reach, now, GoToPreviousDay(reach, now, selected).value) == Some(selected)
    ensures GoToNextDay(reach, now, selected).Some? ==>
      GoToPreviousDay(reach, now, GoToNextDay(reach, now, selected).value) == Some(selected)
  {
  }

  /** The "Back to Today" button, shown only when another day is selected. */
  function BackToToday(now: Time, selected: Time): (r: Option<Time>)
    ensures r.Some? <==> DayOf(selected) != DayOf(now)
    ensures r.Some? ==> r.value == StartOfDay(now) && IsToday(now, r.value)
  {
    if IsToday(now, selected) then None else Some(StartOfDay(now))
  }

  /** 2026-10-01, day 20727, reads "Thu, Oct 1": it lies 214 days into the third year of the
      seventh four-year block of the cycle that starts in 2000. */
  lemma ShortDate20727()
    ensures ShortDateOf(20727) == ShortDate(4, 10, 1)
  {
    assert Decompose(20727) == CyclePos(5, 0, 6, 2, 214);
    assert CivilFromDays(20727) == CivilDate(2026, 10, 1);
  }

  /** 2020-10-01, day 18536, also reads "Thu, Oct 1". */
  lemma ShortDate18536()
    ensures ShortDateOf(18536) == ShortDate(4, 10, 1)
  {
    assert Decompose(18536) == CyclePos(5, 0, 5, 0, 214);
    assert CivilFromDays(18536) == CivilDate(2020, 10, 1);
  }

  /** Beyond the window the label does not tell the year: 2026-10-01 and 2020-10-01 both read
      "Thu, Oct 1". */
  lemma ShortDateOmitsYear()
    ensures ShortDateOf(20727) == ShortDateOf(18536) == ShortDate(4, 10, 1)
  {
    ShortDate20727();
    ShortDate18536();
  }

  /** Seen from 2026-10-14 (day 20740) both days lie outside the window and get the same label. */
  lemma SameLabelDifferentYears()
    ensures FormatDateDisplay(Midnight(20740), Midnight(20727)) == FormatDateDisplay(Midnight(20740), Midnight(18536))
  {
    assert DayOffset(Midnight(20740), Midnight(20727)) == -13;
    assert DayOffset(Midnight(20740), Midnight(18536)) == -2204;
    ShortDateOmitsYear();
  }
}
