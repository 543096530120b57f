/** `lib/utils/goalUtils.ts`: whether a goal or one of its actions is overdue, by how many
    days, and the goal's completion-ratio progress. "Today" is the parameter `now`. */
module GoalUtils {
  import opened Wrappers
  import opened Calendar
  import opened Seqs
  import opened Types
  import opened Rounding
  import opened ProgressTracker

  /** `isGoalOverdue`: a goal with a target, not completed, whose target day (midnight of the
      target) lies before today's midnight. */
  function IsGoalOverdue(g: Goal, now: Time): (overdue: bool)
    ensures overdue <==> g.targetDate.Some? && !g.completed && DayOf(g.targetDate.value) < DayOf(now)
  {
    if g.targetDate.None? || g.completed then false
    else
      StartOfDayOrder(g.targetDate.value, now);
      Ms(StartOfDay(g.targetDate.value)) < Ms(StartOfDay(now))
  }

  /** `getOverdueDays`: the floored millisecond difference of the two midnights, in days. */
  function OverdueDays(g: Goal, now: Time): (n: int)
    ensures n >= 0
    ensures n > 0 <==> IsGoalOverdue(g, now)
    ensures IsGoalOverdue(g, now) ==> n == DayOf(now) - DayOf(g.targetDate.value)
  {
    if !IsGoalOverdue(g, now) || g.targetDate.None? then 0
    else (Ms(StartOfDay(now)) - Ms(StartOfDay(g.targetDate.value))) / MsPerDay
  }

  /** Every further day adds one overdue day. */
  lemma OverdueDaysGrow(g: Goal, now: Time, k: nat)
    requires IsGoalOverdue(g, now)
    ensures OverdueDays(g, AddDays(now, k)) == OverdueDays(g, now) + k
  {
  }

  /** `isActionApplicableOnDay` and `isActionCompletedOnDate` are not part of this model; the
      checks here are the ones the progress tracker makes (`IsDateApplicable` and the
      completion lookup). `isActionOverdue`: the goal's target day is past and the action
      applied on the target's midnight without being completed that day. The date argument
      is kept and never read. */
  function IsActionOverdue(a: Action, g: Goal, date: Time, now: Time): (overdue: bool)
    ensures overdue <==>
      && IsGoalOverdue(g, now)
      && IsApplicable(a, StartOfDay(g.targetDate.value))
      && !IsCompleted(a, g.targetDate.value)
  {
    if g.targetDate.None? || g.completed then false
    else
      var target := StartOfDay(g.targetDate.value);
      StartOfDayOrder(g.targetDate.value, now);
      IsCompletedSameDay(a, target, g.targetDate.value);
      if Ms(target) >= Ms(StartOfDay(now)) then false
      else if !IsDateApplicable(target, a.recurrence, a.createdAt) then false
      else !HasCompletion(a.completions, FormatDate(target))
  }

  /** `completions.some(c => c.completed)`: at least one record is marked completed. */
  function AnyCompleted(cs: seq<Completion>): (found: bool)
    ensures found <==> exists i :: 0 <= i < |cs| && cs[i].completed
  {
    if cs == [] then false else cs[0].completed || AnyCompleted(cs[1..])
  }

  predicate HasCompletedRecord(a: Action) {
    AnyCompleted(a.completions)
  }

  /** `calculateGoalProgress`: the rounded share of actions with a completed record, 0 for a
      goal without actions. */
  function CalculateGoalProgress(g: Goal): (p: nat)
    ensures p <= 100
    ensures |g.actions| == 0 ==> p == 0
    ensures |g.actions| > 0 ==> var k := |Filter(HasCompletedRecord, g.actions)|;
      2 * |g.actions| * p <= 200 * k + |g.actions| < 2 * |g.actions| * (p + 1)
  {
    if |g.actions| == 0 then 0
    else
      var k := |Filter(HasCompletedRecord, g.actions)|;
      RoundPercentRange(k, |g.actions|);
      RoundPercent(k, |g.actions|)
  }

  /** A goal all of whose actions have a completed record is at 100, one with none at 0. */
  lemma GoalProgressExtremes(g: Goal)
    requires |g.actions| > 0
    ensures (forall i :: 0 <= i < |g.actions| ==> HasCompletedRecord(g.actions[i])) ==> CalculateGoalProgress(g) == 100
    ensures (forall i :: 0 <= i < |g.actions| ==> !HasCompletedRecord(g.actions[i])) ==> CalculateGoalProgress(g) == 0
  {
    var k := |Filter(HasCompletedRecord, g.actions)|;
    FilterLengthAll(HasCompletedRecord, g.actions);
    if forall i :: 0 <= i < |g.actions| ==> !HasCompletedRecord(g.actions[i]) {
      FilterNone(HasCompletedRecord, g.actions);
    }
    RoundPercentRange(k, |g.actions|);
  }

  /** Recording completions never lowers a goal's progress: if every action that had a
      completed record still has one, the progress does not drop. */
  lemma GoalProgressMonotone(g: Goal, h: Goal)
    requires |g.actions| == |h.actions|
    requires forall i :: 0 <= i < |g.actions| && HasCompletedRecord(g.actions[i]) ==> HasCompletedRecord(h.actions[i])
    ensures CalculateGoalProgress(g) <= CalculateGoalProgress(h)
  {
    if |g.actions| > 0 {
      FilterCountMonotone(HasCompletedRecord, HasCompletedRecord, g.actions, h.actions);
      RoundPercentMonotone(|Filter(HasCompletedRecord, g.actions)|, |Filter(HasCompletedRecord, h.actions)|, |g.actions|);
    }
  }

  /** One completed action out of four is 25 percent. */
  lemma OneOfFourIsQuarter(g: Goal)
    requires |g.actions| == 4
    requires HasCompletedRecord(g.actions[0])
    requires forall i :: 1 <= i < 4 ==> !HasCompletedRecord(g.actions[i])
    ensures CalculateGoalProgress(g) == 25
  {
    var s := g.actions;
    assert s == [s[0]] + s[1..];
    FilterConcat(HasCompletedRecord, [s[0]], s[1..]);
    FilterNone(HasCompletedRecord, s[1..]);
    assert |Filter(HasCompletedRecord, s)| == 1;
    assert RoundPercent(1, 4) == 25;
  }
}
