/** `components/DateNavigatorMobile.tsx`: the compact day switcher. It labels days within a
    week of today, never stops going back, and stops a week ahead. Its `isToday` and its
    "Today" button are those of the desktop navigator (`DateNavigator.IsToday`,
    `DateNavigator.BackToToday`). */
module DateNavigatorMobile {
  import opened Wrappers
  import opened Calendar
  import DateNavigator

  /** How far ahead, and how far either side with a relative phrase, in days. */
  const Window: int := 7

  /** `formatDateDisplay` with the one-week window. */
  function FormatDateDisplay(now: Time, target: Time): DateNavigator.Display {
    DateNavigator.RelativeLabel(Window, DateNavigator.DayOffset(now, target), DayOf(target))
  }

  /** Within a week of today both navigators show the same label; from eight to ten days away
      only the desktop one still shows a phrase. */
  lemma LabelsAgreeWithinWeek(now: Time, target: Time)
    ensures var d := DayOf(target) - DayOf(now);
      -Window <= d <= Window ==> FormatDateDisplay(now, target) == DateNavigator.FormatDateDisplay(now, target)
    ensures var d := DayOf(target) - DayOf(now);
      Window < d <= DateNavigator.Window || -DateNavigator.Window <= d < -Window ==>
        && FormatDateDisplay(now, target).ShortDate?
        && DateNavigator.FormatDateDisplay(now, target).Phrase?
  {
  }

  /** Within a week of today the label names the selected day: no other day gets it. */
  lemma FormatDateDisplayInjective(now: Time, a: Time, b: Time)
    requires -Window <= DayOf(a) - DayOf(now) <= Window
    requires FormatDateDisplay(now, a) == FormatDateDisplay(now, b)
    ensures DayOf(a) == DayOf(b)
  {
    DateNavigator.RelativeLabelInjective(Window, DateNavigator.DayOffset(now, a), DayOf(a),
                                         DateNavigator.DayOffset(now, b), DayOf(b));
  }

  /** `goToPreviousDay`: always the day before, with no lower bound. */
  function GoToPreviousDay(selected: Time): (r: Time)
    ensures DayOf(r) == DayOf(selected) - 1
    ensures Ms(r) - Ms(StartOfDay(r)) == Ms(selected) - Ms(StartOfDay(selected))
  {
    AddDays(selected, -1)
  }

  /** `goToNextDay`: the desktop handler with a window of a week ahead. */
  function GoToNextDay(now: Time, selected: Time): Option<Time> {
    DateNavigator.GoToNextDay(Window, now, selected)
  }

  /** `canNavigateForward`, which disables the down arrow. */
  predicate CanNavigateForward(now: Time, selected: Time) {
    DateNavigator.CanNavigateForward(Window, now, selected)
  }

  /** The down arrow is enabled exactly when pressing it moves the date, one day on and never
      past a week from today. */
  lemma ForwardEnabledIffMoves(now: Time, selected: Time)
    ensures CanNavigateForward(now, selected) <==> GoToNextDay(now, selected).Some?
    ensures GoToNextDay(now, selected).Some? <==> DayOf(selected) < DayOf(now) + Window
    ensures GoToNextDay(now, selected).Some? ==>
      GoToNextDay(now, selected).value == AddDays(selected, 1) && DayOf(GoToNextDay(now, selected).value) <= DayOf(now) + Window
  {
    DateNavigator.ArrowsEnabledIffMove(Window, now, selected);
  }

  /** `k` presses of the up arrow go back exactly `k` days. */
  function PressPrevious(selected: Time, k: nat): Time
    decreases k
  {
    if k == 0 then selected else PressPrevious(GoToPreviousDay(selected), k - 1)
  }

  lemma {:induction false} PressPreviousUnbounded(selected: Time, k: nat)
    ensures DayOf(PressPrevious(selected, k)) == DayOf(selected) - k
    decreases k
  {
    if k > 0 {
      PressPreviousUnbounded(GoToPreviousDay(selected), k - 1);
    }
  }

  /** Since the up arrow has no bound, days whose labels coincide are both reachable: from
      2026-10-14 (day 20740), 13 and 2204 presses reach 2026-10-01 and 2020-10-01, which both
      read "Thu, Oct 1". */
  lemma SameLabelDifferentDays(now: Time)
    requires now == Midnight(20740)
    ensures DayOf(PressPrevious(now, 13)) != DayOf(PressPrevious(now, 2204))
    ensures FormatDateDisplay(now, PressPrevious(now, 13)) == FormatDateDisplay(now, PressPrevious(now, 2204))
  {
    var a, b := PressPrevious(now, 13), PressPrevious(now, 2204);
    assert DayOf(a) == 20727 && DayOf(b) == 18536 by {
      PressPreviousUnbounded(now, 13);
      PressPreviousUnbounded(now, 2204);
    }
    assert FormatDateDisplay(now, a) == DateNavigator.ShortDateOf(20727);
    assert FormatDateDisplay(now, b) == DateNavigator.ShortDateOf(18536);
    DateNavigator.ShortDateOmitsYear();
  }

  /** The upper bound holds on every path, and a step back followed by a step forward returns
      to the same moment. */
  lemma ForwardBoundKept(now: Time, selected: Time)
    ensures DayOf(selected) <= DayOf(now) + Window ==>
      GoToNextDay(now, GoToPreviousDay(selected)) == Some(selected)
    ensures GoToNextDay(now, selected).Some? ==>
      GoToPreviousDay(GoToNextDay(now, selected).value) == selected
  {
  }
}
