/** `lib/utils/actionUtils.ts`: the display label of a recurrence rule. */
module ActionUtils {
  import opened Wrappers
  import opened Types

  const DayNames: seq<string> := ["Sun", "Mon", "Tue", "Wed", "Thu", "Fri", "Sat"]

  /** `DAYS[d]` inside a template literal: an index outside the table reads `undefined`. */
  function DayLabel(d: int): string {
    if 0 <= d < 7 then DayNames[d] else "undefined"
  }

  /** `DAYS[d]` as an element passed to `join`, which turns `undefined` into "". */
  function JoinedDayLabel(d: int): string {
    if 0 <= d < 7 then DayNames[d] else ""
  }

  /** `days.map(d => DAYS[d]).join(', ')`. */
  function JoinDayLabels(days: seq<int>): string
    decreases |days|
  {
    if days == [] then ""
    else if |days| == 1 then JoinedDayLabel(days[0])
    else JoinedDayLabel(days[0]) + ", " + JoinDayLabels(days[1..])
  }

  /** `formatRecurrence`. */
  function FormatRecurrence(r: Recurrence): string {
    match r.kind
    case Daily => "Daily"
    case Weekdays => "Weekdays"
    case Weekly => "Every " + DayLabel(r.weeklyDay.GetOr(1))
    case Custom =>
      if r.customDays.Some? && |r.customDays.value| > 0 then JoinDayLabels(r.customDays.value)
      else "Custom"
    case Unrecognised => "Daily"
  }

  /** The rule a label stands for: what a reader of the label learns about the recurrence.
      An unknown kind reads as daily, a weekly rule without a day as Monday, and a custom
      rule without days as the bare word "Custom". */
  function Shown(r: Recurrence): Recurrence {
    match r.kind
    case Daily => Recurrence(Daily, None, None)
    case Unrecognised => Recurrence(Daily, None, None)
    case Weekdays => Recurrence(Weekdays, None, None)
    case Weekly => Recurrence(Weekly, Some(r.weeklyDay.GetOr(1)), None)
    case Custom =>
      if r.customDays.Some? && |r.customDays.value| > 0 then Recurrence(Custom, None, r.customDays)
      else Recurrence(Custom, None, None)
  }

  /** The day number of a three-letter day name. */
  function DayIndex(name: string): Option<int> {
    if name == "Sun" then Some(0) else if name == "Mon" then Some(1)
    else if name == "Tue" then Some(2) else if name == "Wed" then Some(3)
    else if name == "Thu" then Some(4) else if name == "Fri" then Some(5)
    else if name == "Sat" then Some(6) else None
  }

  /** Reads back a ", "-separated list of day names. */
  function ParseDayLabels(s: string): Option<seq<int>>
    decreases |s|
  {
    if |s| < 3 || DayIndex(s[..3]).None? then None
    else if |s| == 3 then Some([DayIndex(s).value])
    else if |s| > 5 && s[3..5] == ", " then
      match ParseDayLabels(s[5..])
      case Some(rest) => Some([DayIndex(s[..3]).value] + rest)
      case None => None
    else None
  }

  /** Reads back a label produced by `FormatRecurrence`. */
  function ParseRecurrenceLabel(s: string): Option<Recurrence> {
    if s == "Daily" then Some(Recurrence(Daily, None, None))
    else if s == "Weekdays" then Some(Recurrence(Weekdays, None, None))
    else if s == "Custom" then Some(Recurrence(Custom, None, None))
    else if |s| == 9 && s[..6] == "Every " && DayIndex(s[6..]).Some? then
      Some(Recurrence(Weekly, DayIndex(s[6..]), None))
    else match ParseDayLabels(s)
      case Some(days) => Some(Recurrence(Custom, None, Some(days)))
      case None => None
  }

  lemma DayIndexOfName(d: int)
    requires IsDayNumber(d)
    ensures |DayNames[d]| == 3 && DayIndex(DayNames[d]) == Some(d)
  {
  }

  /** A joined list of valid day numbers starts with a day name and reads back to the list. */
  lemma {:induction false} ParseJoinDayLabels(days: seq<int>)
    requires |days| > 0 && ValidDays(days)
    ensures var s := JoinDayLabels(days);
      |s| >= 3 && s[..3] == DayNames[days[0]] && ParseDayLabels(s) == Some(days)
    decreases |days|
  {
    var s := JoinDayLabels(days);
    DayIndexOfName(days[0]);
    if |days| > 1 {
      ParseJoinDayLabels(days[1..]);
      assert s == DayNames[days[0]] + ", " + JoinDayLabels(days[1..]);
      assert s[..3] == DayNames[days[0]];
      assert s[3..5] == ", ";
      assert s[5..] == JoinDayLabels(days[1..]);
      assert [days[0]] + days[1..] == days;
      assert ParseDayLabels(s) == Some([days[0]] + days[1..]);
    } else {
      assert s == DayNames[days[0]] && [days[0]] == days;
    }
  }

  /** A string that starts with a day name is none of the fixed labels and does not start
      like a weekly one. */
  lemma StartsWithDayName(s: string)
    requires |s| >= 3 && DayIndex(s[..3]).Some?
    ensures s != "Daily" && s != "Weekdays" && s != "Custom"
    ensures |s| >= 6 ==> s[..6] != "Every "
  {
    assert "Wee"[2] != "Wed"[2];
    assert DayIndex("Dai").None? && DayIndex("Wee").None?;
    assert DayIndex("Cus").None? && DayIndex("Eve").None?;
    assert s[..3] != "Dai" && s[..3] != "Wee" && s[..3] != "Cus" && s[..3] != "Eve";
    assert "Daily"[..3] == "Dai" && "Weekdays"[..3] == "Wee";
    assert "Custom"[..3] == "Cus" && "Every "[..3] == "Eve";
    if |s| >= 6 {
      assert s[..6][..3] == s[..3];
    }
  }

  /** The label of a non-empty custom day list reads back to that list. */
  lemma CustomLabelRoundTrip(days: seq<int>)
    requires |days| > 0 && ValidDays(days)
    ensures ParseRecurrenceLabel(JoinDayLabels(days)) == Some(Recurrence(Custom, None, Some(days)))
  {
    ParseJoinDayLabels(days);
    DayIndexOfName(days[0]);
    StartsWithDayName(JoinDayLabels(days));
  }

  /** The label says everything `Shown` keeps: for a rule whose day numbers are in range it
      reads back to exactly that rule. In particular daily and unknown kinds label as
      "Daily", weekdays as "Weekdays", weekly as "Every " plus the day name (Monday when the
      day is missing), custom as the stored day names in stored order, or "Custom" when the
      list is missing or empty. */
  lemma LabelRoundTrip(r: Recurrence)
    requires r.weeklyDay.Some? ==> IsDayNumber(r.weeklyDay.value)
    requires r.customDays.Some? ==> ValidDays(r.customDays.value)
    ensures ParseRecurrenceLabel(FormatRecurrence(r)) == Some(Shown(r))
  {
    match r.kind
    case Weekly =>
      var d := r.weeklyDay.GetOr(1);
      DayIndexOfName(d);
      var s := FormatRecurrence(r);
      assert s == "Every " + DayNames[d];
      assert s[..6] == "Every " && s[6..] == DayNames[d];
    case Custom =>
      if r.customDays.Some? && |r.customDays.value| > 0 {
        CustomLabelRoundTrip(r.customDays.value);
      }
    case _ =>
  }
}
