/** `components/ActionRecurrenceDialog.tsx`: the dialog in which a recurrence rule is chosen for
    an action. Its three pieces of state, what opening it loads into them, the custom-day
    toggle, and the rule the confirm button builds. */
module RecurrenceDialog {
  import opened Wrappers
  import opened Types
  import opened Strings
  import opened Seqs
  import ActionUtils

  /** One entry of the `DAYS` table: a weekday number and its short name. */
  datatype DayOption = DayOption(value: int, name: string)

  const Days: seq<DayOption> := [
    DayOption(0, "Sun"), DayOption(1, "Mon"), DayOption(2, "Tue"), DayOption(3, "Wed"),
    DayOption(4, "Thu"), DayOption(5, "Fri"), DayOption(6, "Sat")]

  /** `DAYS[weeklyDay].label` in the weekly radio's caption: a day outside the table has no
      entry, and reading `.label` of it fails. */
  function WeeklyCaption(weeklyDay: int): (c: Option<string>)
    ensures c.Some? <==> IsDayNumber(weeklyDay)
    ensures c.Some? ==> c.value == ActionUtils.DayNames[weeklyDay]
  {
    if 0 <= weeklyDay < |Days| then Some(Days[weeklyDay].name) else None
  }

  /** The table lists every weekday once, in order, under the names the recurrence labels use. */
  lemma DaysTable()
    ensures |Days| == |ActionUtils.DayNames| == 7
    ensures forall i :: 0 <= i < |Days| ==> Days[i].value == i && Days[i].name == ActionUtils.DayNames[i]
  {
  }

  // ---------------------------------------------------------------------------------------
  // The default `Array.prototype.sort`

  /** The default sort compares the decimal strings of the numbers, not the numbers. */
  predicate JsBefore(a: int, b: int) {
    LexLessEq(IntToString(a), IntToString(b))
  }

  /** Places `x` before the first element it does not come after. */
  function InsertJs(x: int, s: seq<int>): (r: seq<int>)
    ensures multiset(r) == multiset(s) + multiset{x}
    ensures |r| == |s| + 1
  {
    if s == [] || JsBefore(x, s[0]) then [x] + s
    else
      assert s == [s[0]] + s[1..];
      [s[0]] + InsertJs(x, s[1..])
  }

  /** `array.sort()` with no comparator, as a stable insertion sort on string order. */
  function JsSort(s: seq<int>): (r: seq<int>)
    ensures multiset(r) == multiset(s)
  {
    if s == [] then [] else
      assert s == [s[0]] + s[1..];
      InsertJs(s[0], JsSort(s[1..]))
  }

  /** On single digits, and so on weekday numbers, string order is number order. */
  lemma DigitOrder(a: int, b: int)
    requires 0 <= a <= 9 && 0 <= b <= 9
    ensures JsBefore(a, b) <==> a <= b
  {
    var sa, sb := IntToString(a), IntToString(b);
    assert sa == [DigitChar(a)] && sb == [DigitChar(b)];
    assert sa[1..] == [] && sb[1..] == [];
    assert LexLessEq(sa[1..], sb[1..]);
    assert (sa[0] < sb[0] <==> a < b) && (sa[0] == sb[0] <==> a == b);
  }

  /** Beyond single digits the two orders part: the default sort puts 10 before 2. */
  lemma StringOrderIsNotNumberOrder()
    ensures JsSort([2, 10]) == [10, 2]
  {
    assert NatToString(10) == NatToString(1) + [DigitChar(0)];
    assert IntToString(10) == ['1', '0'];
    assert IntToString(2) == ['2'];
    assert !JsBefore(2, 10);
    assert JsSort([10]) == [10];
    assert [2, 10][1..] == [10];
  }

  predicate StrictlyIncreasing(s: seq<int>) {
    forall i, j :: 0 <= i < j < |s| ==> s[i] < s[j]
  }

  predicate Distinct(s: seq<int>) {
    forall i, j :: 0 <= i < j < |s| ==> s[i] != s[j]
  }

  /** Inserting a new weekday into an increasing list of weekdays keeps it increasing. */
  lemma {:induction false} InsertIncreasing(x: int, s: seq<int>)
    requires StrictlyIncreasing(s) && ValidDays(s) && IsDayNumber(x) && x !in s
    ensures StrictlyIncreasing(InsertJs(x, s))
  {
    if s == [] {
    } else {
      DigitOrder(x, s[0]);
      if JsBefore(x, s[0]) {
        assert x < s[0];
      } else {
        var t := s[1..];
        assert StrictlyIncreasing(t) && ValidDays(t);
        InsertIncreasing(x, t);
        var rt := InsertJs(x, t);
        assert s[0] < x;
        assert forall k :: 0 <= k < |t| ==> s[0] < t[k] by {
          forall k | 0 <= k < |t| ensures s[0] < t[k] {
            assert t[k] == s[k + 1];
          }
        }
        InsertJsAbove(x, t, s[0]);
        var r := [s[0]] + rt;
        forall i, j | 0 <= i < j < |r| ensures r[i] < r[j] {
          if i > 0 {
            assert r[i] == rt[i - 1] && r[j] == rt[j - 1];
          } else {
            assert r[j] == rt[j - 1];
          }
        }
      }
    }
  }

  /** Inserting a value above `lo` into a list above `lo` gives a list above `lo`. */
  lemma InsertJsAbove(x: int, s: seq<int>, lo: int)
    requires lo < x && forall k :: 0 <= k < |s| ==> lo < s[k]
    ensures forall k :: 0 <= k < |InsertJs(x, s)| ==> lo < InsertJs(x, s)[k]
  {
    var r := InsertJs(x, s);
    forall k | 0 <= k < |r| ensures lo < r[k] {
      assert r[k] in multiset(r);
      assert r[k] in s || r[k] == x;
    }
  }

  /** Sorting weekday numbers yields weekday numbers. */
  lemma JsSortValid(s: seq<int>)
    requires ValidDays(s)
    ensures ValidDays(JsSort(s))
  {
    var r := JsSort(s);
    forall k | 0 <= k < |r| ensures IsDayNumber(r[k]) {
      assert r[k] in multiset(r);
      assert r[k] in s;
    }
  }

  /** Sorting distinct weekdays lists them in increasing order. */
  lemma {:induction false} JsSortIncreasing(s: seq<int>)
    requires Distinct(s) && ValidDays(s)
    ensures StrictlyIncreasing(JsSort(s))
  {
    if s != [] {
      var t := s[1..];
      assert Distinct(t) && ValidDays(t);
      JsSortIncreasing(t);
      var st := JsSort(t);
      assert s[0] !in t by {
        forall k | 0 <= k < |t| ensures t[k] != s[0] {
          assert t[k] == s[k + 1];
        }
      }
      assert s[0] !in st by {
        assert multiset(st) == multiset(t);
        assert s[0] !in multiset(st);
      }
      JsSortValid(t);
      assert JsSort(s) == InsertJs(s[0], st);
      InsertIncreasing(s[0], st);
    }
  }

  // ---------------------------------------------------------------------------------------
  // handleDayToggle

  function NotDay(day: int): int -> bool {
    (d: int) => d != day
  }

  /** A selected day is filtered out; another is appended and the list re-sorted. */
  function ToggleDay(days: seq<int>, day: int): seq<int> {
    if day in days then Filter(NotDay(day), days) else JsSort(days + [day])
  }

  /** Toggling flips exactly the toggled day's membership. */
  lemma ToggleDayMembers(days: seq<int>, day: int)
    ensures forall x :: x in ToggleDay(days, day) <==> (x in days) != (x == day)
  {
    var r := ToggleDay(days, day);
    if day in days {
      FilterMembers(NotDay(day), days);
    } else {
      assert multiset(r) == multiset(days + [day]);
      forall x ensures x in r <==> x in days || x == day {
        assert x in r <==> x in multiset(r);
        assert x in days + [day] <==> x in multiset(days + [day]);
      }
    }
  }

  lemma {:induction false} FilterIncreasing(f: int -> bool, s: seq<int>)
    requires StrictlyIncreasing(s)
    ensures StrictlyIncreasing(Filter(f, s))
  {
    if s != [] {
      var t := s[1..];
      assert StrictlyIncreasing(t);
      FilterIncreasing(f, t);
      FilterMembers(f, t);
      var ft := Filter(f, t);
      if f(s[0]) {
        var r := [s[0]] + ft;
        assert Filter(f, s) == r;
        forall i, j | 0 <= i < j < |r| ensures r[i] < r[j] {
          assert r[j] == ft[j - 1] && ft[j - 1] in t;
          if i > 0 {
            assert r[i] == ft[i - 1];
          }
        }
      } else {
        assert Filter(f, s) == ft;
      }
    }
  }

  /** Two increasing lists with the same members are the same list. */
  lemma {:induction false} IncreasingUnique(a: seq<int>, b: seq<int>)
    requires StrictlyIncreasing(a) && StrictlyIncreasing(b)
    requires forall x :: x in a <==> x in b
    ensures a == b
  {
    if a == [] {
      forall x ensures x !in multiset(b) {
        assert x !in a;
      }
      assert multiset(b) == multiset{};
      assert |b| == |multiset(b)| == 0;
    } else {
      assert a[0] in b && b[0] in a;
      assert b != [];
      assert a[0] == b[0];
      var ta, tb := a[1..], b[1..];
      forall x ensures x in ta <==> x in tb {
        assert x in ta <==> x in a && x != a[0];
        assert x in tb <==> x in b && x != b[0];
      }
      IncreasingUnique(ta, tb);
      assert a == [a[0]] + ta && b == [b[0]] + tb;
    }
  }

  /** Toggling a weekday keeps an increasing list of weekdays increasing. */
  lemma ToggleDayIncreasing(days: seq<int>, day: int)
    requires StrictlyIncreasing(days) && ValidDays(days) && IsDayNumber(day)
    ensures StrictlyIncreasing(ToggleDay(days, day)) && ValidDays(ToggleDay(days, day))
  {
    var r := ToggleDay(days, day);
    ToggleDayMembers(days, day);
    if day in days {
      FilterIncreasing(NotDay(day), days);
    } else {
      var s := days + [day];
      forall i, j | 0 <= i < j < |s| ensures s[i] != s[j] {
        if j == |days| {
          assert s[i] == days[i];
        } else {
          assert s[i] == days[i] && s[j] == days[j];
        }
      }
      assert ValidDays(s);
      JsSortIncreasing(s);
    }
    forall k | 0 <= k < |r| ensures IsDayNumber(r[k]) {
      assert r[k] in r;
    }
  }

  /** Pressing the same day button twice gives back the list it started from. */
  lemma ToggleDayTwice(days: seq<int>, day: int)
    requires StrictlyIncreasing(days) && ValidDays(days) && IsDayNumber(day)
    ensures ToggleDay(ToggleDay(days, day), day) == days
  {
    var once := ToggleDay(days, day);
    ToggleDayIncreasing(days, day);
    ToggleDayIncreasing(once, day);
    ToggleDayMembers(days, day);
    ToggleDayMembers(once, day);
    IncreasingUnique(ToggleDay(once, day), days);
  }

  // ---------------------------------------------------------------------------------------
  // The form and handleConfirm

  /** The dialog's three state variables. */
  datatype Form = Form(kind: RecurrenceType, customDays: seq<int>, weeklyDay: int)

  /** What opening the dialog loads: the initial rule's fields where present, otherwise a daily
      rule, no custom days and today's weekday. */
  function Opened(initial: Option<Recurrence>, today: int): (f: Form)
    ensures initial.None? ==> f == Form(Daily, [], today)
    ensures initial.Some? ==> f.kind == initial.value.kind
    ensures initial.Some? ==> f.customDays == initial.value.customDays.GetOr([])
    ensures initial.Some? ==> f.weeklyDay == initial.value.weeklyDay.GetOr(today)
  {
    match initial
    case None => Form(Daily, [], today)
    case Some(r) => Form(r.kind, r.customDays.GetOr([]), r.weeklyDay.GetOr(today))
  }

  /** The rule the confirm handler builds, or `None` when it returns early on a custom rule
      with no days; an unrecognised kind falls through to a daily rule. */
  function BuildRecurrence(f: Form): (r: Option<Recurrence>)
    ensures r.None? <==> f.kind == Custom && |f.customDays| == 0
    ensures r.Some? ==> r.value.kind == (if f.kind == Unrecognised then Daily else f.kind)
    ensures r.Some? && r.value.kind == Weekly ==> r.value.weeklyDay == Some(f.weeklyDay)
    ensures r.Some? && r.value.kind == Custom ==> r.value.customDays == Some(f.customDays)
    ensures r.Some? && r.value.kind != Weekly ==> r.value.weeklyDay.None?
    ensures r.Some? && r.value.kind != Custom ==> r.value.customDays.None?
  {
    match f.kind
    case Daily => Some(Recurrence(Daily, None, None))
    case Weekdays => Some(Recurrence(Weekdays, None, None))
    case Weekly => Some(Recurrence(Weekly, Some(f.weeklyDay), None))
    case Custom =>
      if |f.customDays| == 0 then None else Some(Recurrence(Custom, None, Some(f.customDays)))
    case Unrecognised => Some(Recurrence(Daily, None, None))
  }

  /** The confirm button's `disabled` condition. */
  predicate ConfirmDisabled(f: Form) {
    f.kind == Custom && |f.customDays| == 0
  }

  /** The button is disabled exactly when confirming would build nothing, and what it builds
      from weekdays in range is a valid rule. */
  lemma ConfirmDisabledIffNothingBuilt(f: Form)
    ensures ConfirmDisabled(f) <==> BuildRecurrence(f).None?
    ensures BuildRecurrence(f).Some? && IsDayNumber(f.weeklyDay) && ValidDays(f.customDays) ==>
      ValidRecurrence(BuildRecurrence(f).value)
  {
  }

  /** Reopening the dialog on the rule it built and confirming again builds the same rule. */
  lemma ReopenRebuilds(f: Form, today: int)
    requires BuildRecurrence(f).Some?
    ensures BuildRecurrence(Opened(BuildRecurrence(f), today)) == BuildRecurrence(f)
  {
  }

  /** Reopening on a rule the dialog built shows the form it was built from, up to the fields
      the rule's kind does not use. */
  lemma ReopenRestoresForm(f: Form, today: int)
    requires BuildRecurrence(f).Some? && f.kind != Unrecognised
    ensures Opened(BuildRecurrence(f), today).kind == f.kind
    ensures f.kind == Weekly ==> Opened(BuildRecurrence(f), today).weeklyDay == f.weeklyDay
    ensures f.kind == Custom ==> Opened(BuildRecurrence(f), today).customDays == f.customDays
  {
  }

  /** The calls the dialog makes on its parent's callbacks. */
  datatype Event = Confirmed(recurrence: Recurrence) | OpenChanged(open: bool)

  /** `onConfirm(recurrence)` then `onOpenChange(false)`, or nothing after the early return. */
  function ConfirmEvents(built: Option<Recurrence>): (e: seq<Event>)
    ensures built.None? <==> e == []
    ensures built.Some? ==> e == [Confirmed(built.value), OpenChanged(false)]
  {
    match built
    case None => []
    case Some(r) => [Confirmed(r), OpenChanged(false)]
  }

  /** The mounted dialog. `today` stands for `new Date().getDay()`. */
  class DialogState {
    var recurrenceType: RecurrenceType
    var customDays: seq<int>
    var weeklyDay: int

    function Current(): Form
      reads this
    {
      Form(recurrenceType, customDays, weeklyDay)
    }

    constructor(today: int)
      ensures Current() == Opened(None, today)
    {
      recurrenceType := Daily;
      customDays := [];
      weeklyDay := today;
    }

    /** The effect on `open` and `initialRecurrence`: it reloads the form only while open. */
    method OpenEffect(open: bool, initial: Option<Recurrence>, today: int)
      modifies this
      ensures open ==> Current() == Opened(initial, today)
      ensures !open ==> Current() == old(Current())
    {
      if open {
        var f := Opened(initial, today);
        recurrenceType := f.kind;
        customDays := f.customDays;
        weeklyDay := f.weeklyDay;
      }
    }

    /** A radio button's `onChange`. */
    method SelectKind(kind: RecurrenceType)
      modifies this
      ensures Current() == old(Current()).(kind := kind)
    {
      recurrenceType := kind;
    }

    /** The weekday select's `onChange`, after `Number(e.target.value)`. */
    method SelectWeeklyDay(day: int)
      modifies this
      ensures Current() == old(Current()).(weeklyDay := day)
    {
      weeklyDay := day;
    }

    /** A day button of the custom selection. */
    method HandleDayToggle(day: int)
      modifies this
      ensures Current() == old(Current()).(customDays := ToggleDay(old(customDays), day))
    {
      customDays := ToggleDay(customDays, day);
    }

    /** `handleConfirm`: the form is left as it is; the callbacks receive the built rule. */
    method HandleConfirm() returns (events: seq<Event>)
      ensures events == ConfirmEvents(BuildRecurrence(Current()))
    {
      var built: Option<Recurrence>;
      if recurrenceType == Daily {
        built := Some(Recurrence(Daily, None, None));
      } else if recurrenceType == Weekdays {
        built := Some(Recurrence(Weekdays, None, None));
      } else if recurrenceType == Weekly {
        built := Some(Recurrence(Weekly, Some(weeklyDay), None));
      } else if recurrenceType == Custom {
        if |customDays| == 0 {
          return [];
        }
        built := Some(Recurrence(Custom, None, Some(customDays)));
      } else {
        built := Some(Recurrence(Daily, None, None));
      }
      events := [Confirmed(built.value), OpenChanged(false)];
    }

    /** The cancel button. */
    method HandleCancel() returns (events: seq<Event>)
      ensures events == [OpenChanged(false)]
    {
      events := [OpenChanged(false)];
    }
  }
}
